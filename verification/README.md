# OpenSPMRegistry: a verified model of its core

This project models the parts of OpenSPMRegistry, a Swift package registry written in Go, in which
several functions have to work together for a promise to hold, and proves those promises in Dafny.
`dafny verify dfyconfig.toml` checks it all.

**Publishing to Maven** (`MavenCoordinates`, `MavenLocations`, `MavenDetours`, `MavenArtifacts`,
`MavenDocuments`, `MavenPublish`, `MavenSafety`, `MavenIndex`, `MavenProgress`, `MavenCatalogue`,
`MavenArchives`, `MavenForgets`). Any number of `mavenWriter.Close` calls run at the same time. Each PUTs
its archive and checksum, then reads, merges and writes `maven-metadata.xml` under a mutex per package,
then reads, merges, DELETEs and PUTs the one package index under `indexMu`. `MavenPublish.Step` is one
lock operation or one request of one call; requests may succeed, report absence or fail, and a failed PUT
or DELETE may or may not have taken effect. They go to locations as `url.JoinPath` makes them from the
configured base URL: cleaned of dot segments and with percent escapes undone. Proved over all
interleavings: no version is ever lost or listed without its archive, documents stay tidy, a free index
is complete, nothing deadlocks, every run ends, and the catalogue that readers rebuild is exactly what
was published.

**Reading from Maven** (`RangeReader`, `RangeReaderLaws`, `RangeReaderDrain`). A seekable reader over HTTP
range requests refines a reader over bytes in memory, however bodies are cut short and whichever fetches
fail, against a server that honours Range (RFC 9110, sections 14.2 and 15.3.7), but for ends of file that
it reports early; when it does so is exact.

**Publishing to S3** (`S3Keys`, `Elements`, `Publish`, `PublishLaws`, `PublishCreated`, `Extraction`,
`Rollback`, `RollbackExactly`, `ReleaseImmutability`). A request is a loop of check, write and extract
with a compensating cleanup over a key-value store. A created release is stored in full, and the
conditions under which stored archives never change and a rollback restores the store are exact, for any
versions that a request may name.

**Versions and order** (`Decimals`, `Versions`, `VersionTexts`, `SemVer`, `ListOrder`, `Sorting`, `Json`,
`ReleaseJson`, `ReleaseJsonKeys`). Parser, comparators on 64-bit integers, in-place sorts, and the
release list as JSON text.

**Listing** (`S3Listing`, `S3ListingLaws`, `Collections`, `CollectionLaws`, `Paging`). Paged hierarchical
listing, package collections and the pages of a release list.

`Text`, `Paths`, `Int64` and `Sequences` hold what the others share.

## How to read it

Code that changes things step by step is a class or a method with loops; its `ensures` equates the new
state with a specification function (`PublishSpec`, `ReadStep`, `SeekStep`, `AllSpec`, ...) or a
specification relation (`Merged`, `IndexMerged`, `Collected`, `SortOf`), and the laws are proved about
these. What a network or a server contributes is a parameter of each call. Where the result of the Go
code depends on its sort or on map iteration, the specification is a relation that leaves exactly that
open.

## Where the code does not do what one might expect

- A manifest that extraction accepts in another spelling, such as `package.swift`, is not found by the
  cleanup of a failed publish (`Rollback.MisspeltManifestStays`). Nor is any but `Package.swift` and
  `Package.json` when prefix, scope, name and version clean to the dot, because the version is listed
  under `./` then (`Rollback.DotVersionKeepsManifest`). `RollbackExactly.RollbackExact` is the exact
  condition on the request.
- An archive whose file is named like a manifest, which takes a host that does not append .zip, can be
  removed by the cleanup of a refused publish (`ReleaseImmutability.SwiftVersionLosesArchive`) or replaced
  by what another publish extracts (`ReleaseImmutability.SwiftVersionReplaced`);
  `ReleaseImmutability.ReleasesImmutable` is the exact condition.
- Versions are not checked, and `url.JoinPath` resolves their dot segments: a file that is no zip can be
  published to the location of any package's `maven-metadata.xml` or of the index
  (`MavenDetours.VersionReachesDocument`, `MavenDetours.VersionReachesIndex`). The results about documents
  and the index are about tame uploads: zips of any version, and other files whose version and name are one
  path segment each (`MavenLocations.Tame`).
- The package index treats every failed GET as an empty index, so one transient failure drops all other
  packages, and a failed PUT behind a DELETE drops them all
  (`MavenIndex.UpdateKeepsExact`, `MavenForgets.CompletedPackageLost`).
- When a body ends early and the next request fails, `Read` passes the end of file on, at
  `repo/maven/readseek.go:121-134`, so a copy is cut off without an error
  (`RangeReaderDrain.SilentTruncation`); `RangeReaderLaws.EarlyEofExact` says when.
- `repo/maven/readseek.go:93` accepts a 200 for a non-zero start and then reads wrong bytes
  (`RangeReaderDrain.IgnoredRangeMisreads`, and `RangeReaderDrain.IgnoredRangeRead` for which reads).
- Seeking to the end never succeeds, since `bytes=size-` cannot be satisfied
  (`RangeReaderLaws.SeekToEndFails`).
- Numeric pre-release identifiers are ordered as text (`SemVer.NumericIdentifiersDisagree`);
  `SemVer.CompareIsPrecedence` is the exact condition.
- The comparator of `listElements` answers 0 for versions that do not parse, which is a strict weak order
  only under the condition of `ListOrder.ReleaseComparatorWeak`.
- `MarshalJSON` writes keys without escaping them (`ReleaseJsonKeys.ReadsBackExact`).
- A collection takes the empty string for "no version yet" when it picks the release that metadata comes
  from (`CollectionLaws.MetadataFromFirst`).
- One tame upload can be stored at the location of the index (`MavenLocations.ArtifactIsIndexExact`), so
  the results about the index ask that uploads stay clear of it, which is to say that this one is not
  among them (`MavenIndex.ClearOfIndexExact`); zips never are (`MavenIndex.ZipsClearOfIndex`).

## Model

| member | source | states |
|---|---|---|
| MavenPublish.MutexTable.MutexFor | repo/maven/access.go:198-206 | the mutex found for a key is the one in the table; a new key gets a mutex no other key has, and no entry is ever changed |
| MavenDocuments.UpdateDocument | repo/maven/metadata.go:84-117 | fails exactly on a load error (anything but 404); otherwise the document is the stored one plus the version once, newest first, with latest and release its first version |
| MavenDocuments.MergedVersions | repo/maven/metadata.go:84-117 | a merge adds the one version and loses none, keeps group and artifact of a stored document and sets those of a new one, and keeps a document tidy: no duplicates, parseable versions descending and first, latest = release = first |
| MavenDocuments.MergeExists | repo/maven/metadata.go:84-117 | whatever the stored document is, a merge result exists |
| MavenDocuments.AddPackage | repo/maven/access.go:171-187 | the package list of one scope becomes the old list and the new name, sorted; a name already there changes nothing |
| MavenDocuments.IndexMergedHas | repo/maven/access.go:171-187 | the merged index has exactly the packages it had and the new one, and stays strictly sorted per scope |
| MavenDocuments.SortStrings | repo/maven/access.go:182-186 | sort.Strings: the same strings in order |
| MavenSafety.LockStep | repo/maven/access.go:198-211 | every step keeps keys and mutexes one to one, each call on the mutex of its own key, and one holder per mutex |
| MavenSafety.OneHolder | repo/maven/access.go:198-211 | two calls that hold mutexes never work on the same maven-metadata.xml |
| MavenSafety.DocumentFrame | repo/maven/access.go:218-257 | no step of any accepted call changes what is stored at a document's location except the upload by the holder of its mutex; archives, checksums and the index never overwrite one |
| MavenSafety.PendingStep | repo/maven/metadata.go:84-135 | whatever other calls do, a document about to be uploaded is the merge of its version into what is stored at that moment |
| MavenSafety.VersionsGrow | repo/maven/metadata.go:84-135 | in every step, failed ones included, the versions of every document only grow |
| MavenSafety.InvAlways | repo/maven/access.go:198-257 | the lock, pending and update invariants hold in every state of every interleaving of any number of calls |
| MavenSafety.StaysListed | repo/maven/metadata.go:84-135 | a version listed in one state of a run is listed in every later one |
| MavenSafety.NoLostVersion | repo/maven/access.go:198-211 | no lost version: once a call's updateMetadataLocked has returned nil, its version is in the stored document in every later state, whatever requests fail |
| MavenSafety.DocumentsTidy | repo/maven/metadata.go:84-117 | in every reachable state a document that began absent is absent or tidy |
| MavenSafety.UnreadableKept | repo/maven/metadata.go:84-89 | what cannot be read as a document is never overwritten, in any run |
| MavenArchives.ArchivesAlways | repo/maven/access.go:218-222 | in every state of every run, a call that is past its archive has an archive at its path, with the buffer of an upload to that path |
| MavenArchives.ChecksumsAlways | repo/maven/access.go:224-238 | once the PUT of a checksum has succeeded, the checksum of an upload to that path is there in every later state |
| MavenArchives.FailedExact | repo/maven/access.go:218-257 | a call fails if and only if the PUT of its archive has failed; a failed checksum, document or index does not end it |
| MavenArchives.ListedHasArchive | repo/maven/access.go:218-257 | no version without its archive: whatever requests fail, a version listed in a document that began absent is that of a zip whose archive is stored |
| MavenArchives.ListedIsReleased | repo/maven/metadata.go:84-117 | such a document names its own group and artifact, from which the scope can be read back, and lists only versions of zips that were sent |
| MavenArchives.PlainArchive | repo/maven/coordinates.go:65-125 | at the path of a plain file there is the buffer of an upload of the same release and file |
| MavenArtifacts.ArtifactIsNotChecksum | repo/maven/access.go:218-238 | no file goes to the location of a checksum |
| MavenArtifacts.PlainArtifactsApart | repo/maven/coordinates.go:65-125 | plain files have the same location if and only if release and file name are the same |
| MavenArtifacts.ManifestsApart | repo/maven/coordinates.go:89-125 | the manifests of a release for different tools versions have different locations |
| MavenArtifacts.MetadataTail | repo/maven/coordinates.go:105-116 | metadata lies beside its archive under the classifier metadata |
| MavenArtifacts.ZipsArePlain | repo/maven/coordinates.go:105-116 | whatever is stored with the extension zip has a plain path |
| MavenArtifacts.UnknownIsZip | models/models.go:146-161 | a type that the host does not know is taken for zip |
| MavenCoordinates.ClassifierOfTools | repo/maven/coordinates.go:89-101 | the classifier of Package@swift-5.7 is package-swift-5.7 |
| MavenCoordinates.ClassifierInserted | repo/maven/coordinates.go:89-101 | and that of Package@5.7 or Package-5.7 as well |
| MavenIndex.IndexStep | repo/maven/access.go:155-195 | each step keeps the index invariant, through the window between DELETE and PUT in which only the lock holder knows the packages |
| MavenIndex.IndexAlways | repo/maven/access.go:155-195 | that invariant holds in every state of every run in which an index GET fails only for an absent index and index PUTs succeed |
| MavenIndex.FreeIndexComplete | repo/maven/access.go:155-195 | whenever indexMu is free the stored index is strictly sorted and holds the first packages, those of all completed updates and none that were not published |
| MavenIndex.FailedGetForgets | repo/maven/access.go:159-169 | without that assumption the lock does not help: after one failed GET the stored index has the one new package and nothing else |
| MavenIndex.UpdateKeepsExact | repo/maven/access.go:155-195 | for every outcome of the three requests, one update of the index loses nothing if and only if its PUT is stored and its GET did not fail or the index held no other package, or the PUT is not stored and neither was the DELETE or the index held nothing |
| MavenIndex.UpdateLeaves | repo/maven/access.go:155-195 | what the stored index is after them: the merged packages, the packages from before, or nothing |
| MavenForgets.CompletedPackageLost | repo/maven/access.go:155-195 | for any zip uploads of two different packages there is a run in which the Close of the first has finished and its package disappears from the index through one failed GET of the second |
| MavenIndex.ZipsClearOfIndex | repo/maven/client.go:91-104 | zips of any version are never uploaded to the location of the index |
| MavenLocations.ArtifactIsIndexExact | repo/maven/client.go:91-104 | an accepted upload that is tame goes to the location of the index if and only if it is registry.index version 1 with extension .json and no classifier below com/spm, up to percent escapes |
| MavenDetours.VersionReachesIndex | repo/maven/client.go:91-104 | without tameness that is false: for any configuration and package there is a version whose .json archive goes to the index |
| MavenIndex.ClearOfIndexExact | repo/maven/client.go:91-104 | accepted uploads stay clear of the index if and only if none of them is that one |
| MavenDetours.IndexPathShared | repo/maven/coordinates.go:65-125 | with the group prefix com.spm and the usual extension for JSON there is such an upload |
| MavenProgress.RunsEnd | repo/maven/access.go:218-257 | n calls take at most 12 n steps together, in every interleaving |
| MavenProgress.NoDeadlock | repo/maven/access.go:155-257 | in every reachable state with an unfinished call some call has a step, and it needs no failing request unless a stored document or index is unreadable |
| MavenProgress.RunCompletes | repo/maven/access.go:218-257 | every failure-free run from an empty server can be continued, still without failures, until all calls have finished |
| MavenCatalogue.GetSPMRegistryIndexFull | repo/maven/client.go:170-196 | the packages of the index, and its scopes as listed or else derived from the package keys, sorted and each once |
| MavenCatalogue.ListScopes | repo/maven/client.go:200-209 | the scopes in order; none without an index |
| MavenCatalogue.List | repo/maven/mavenrepo.go:127-143 | the versions of the package's document, or nothing when it cannot be loaded |
| MavenCatalogue.ListInScope | repo/maven/mavenrepo.go:353-374 | the releases of the scope's packages one behind the other |
| MavenCatalogue.ListAll | repo/maven/mavenrepo.go:377-392 | the releases of all scopes that ListScopes finds |
| MavenCatalogue.QuiescentExact | repo/maven/access.go:218-257 | when all calls have finished, index and documents say exactly what was uploaded |
| MavenCatalogue.ScopesListed | repo/maven/mavenrepo.go:342-392 | from such documents the listing of any scopes has exactly their releases, each once |
| MavenCatalogue.CatalogueExact | repo/maven/mavenrepo.go:342-392 | catalogue exactness: from an empty server, after any interleaving of any number of Close calls without failures, ListAll returns exactly the published (scope, name, version), each once |
| MavenArchives.CatalogueStored | repo/maven/mavenrepo.go:377-392 | and every release it returns has its archive at its path and a checksum beside it |
| MavenCatalogue.ScopesReadable | repo/maven/mavenrepo.go:342-392 | whatever is stored: exactly the releases whose package is indexed and whose document can be loaded are listed, so a bad document hides no other package |
| MavenCoordinates.GroupIdRoundTrip | repo/maven/coordinates.go:10-32 | groupIdToScope undoes buildGroupId for every prefix and scope |
| MavenLocations.SameDocumentSameMutex | repo/maven/access.go:199-206 | for scopes and names that the publish patterns accept, two publishes write the same maven-metadata.xml on the server exactly when they take the same mutex, exactly when scope and name agree |
| MavenCoordinates.DottedScopeSharesDocument | repo/maven/metadata.go:53-56 | without the patterns that is false: two scopes with one document and two mutexes |
| MavenLocations.ArtifactIsNotMetadata | repo/maven/client.go:91-104 | no tame archive, and no checksum of any version, is uploaded to the location of a metadata document, after url.JoinPath has cleaned the path and undone its escapes |
| MavenDetours.VersionReachesDocument | repo/maven/client.go:91-104 | without tameness that is false: for any configuration and any two packages there is a version of one whose .xml archive goes to the document of the other |
| MavenDetours.DetourLocation | repo/maven/client.go:91-104 | where such a version leads, whatever base URL and group prefix are configured |
| MavenDetours.ArchiveTail | repo/maven/coordinates.go:89-116 | such archives exist: one whose scope does not start with p has just its extension behind the version |
| MavenLocations.LocationEndsIn | repo/maven/client.go:91-104 | whatever a path is, its extension is that of its location, unless a malformed escape sends the request to the base URL |
| MavenLocations.DocumentAt | repo/maven/metadata.go:53-56 | where a metadata document is: the segments of base, group, scope and name, cleaned |
| MavenCoordinates.GrammarsExact | controller/publish.go:31-39 | accepted scopes are up to 39, names up to 100 letters and digits with single hyphens, or underscores, between them |
| MavenCoordinates.AcceptedAvoids | controller/publish.go:31-39 | so they contain no dot, slash or percent sign |
| MavenLocations.ZipLocation | repo/maven/coordinates.go:105-125 | a zip of any version goes to a location ending in .zip, or to the base URL |
| MavenLocations.IndexIsNotMetadata | repo/maven/client.go:40 | the index is no document |
| MavenLocations.IndexIsNotChecksum | repo/maven/access.go:218-257 | and no checksum of any upload |
| RangeReader.RangeReadSeekCloser.FetchRange | repo/maven/readseek.go:65-100 | the old body goes; a new one is kept on status 206 or 200 and only then |
| RangeReader.RangeReadSeekCloser.Read | repo/maven/readseek.go:103-137 | the bytes in the buffer, the count, the error and the new fields for every reply and every way the bodies are cut, with the second fetch after an early end |
| RangeReader.RangeReadSeekCloser.Seek | repo/maven/readseek.go:140-181 | position, body and error for every whence, with 64-bit addition |
| RangeReader.RangeReadSeekCloser.Close | repo/maven/readseek.go:184-197 | closes for good and moves nothing |
| RangeReader.NewRangeReadSeekCloser | repo/maven/readseek.go:32-61 | a reader at position 0 with an open body exactly when HEAD gives a length and the first fetch succeeds |
| RangeReaderLaws.ReadKeeps | repo/maven/readseek.go:103-137 | one Read at p returns content[p..p+n], moves to p+n, and an open body is the stream from there |
| RangeReaderLaws.SeekKeeps | repo/maven/readseek.go:140-181 | a Seek whose request is sent is at the clamped target, whether it succeeds or not; one that is refused before that stays where it was |
| RangeReaderLaws.EarlyEofExact | repo/maven/readseek.go:121-134 | a Read reports EOF before the end of the content if and only if its first body ends early and the second reply is not accepted or its body ends early at once too |
| RangeReaderLaws.ReadAnswers | repo/maven/readseek.go:103-137 | exactly which bytes and which error an open reader's Read gives, on the replies and the bytes ready: the request's failure, the body's, EOF or none |
| RangeReaderLaws.NoErrorMeans | repo/maven/readseek.go:103-137 | an answer without an error means that the reply was accepted, no body broke off, and bytes were taken or none were ready, asked for or left |
| RangeReaderLaws.SeekAnswers | repo/maven/readseek.go:140-181 | exactly which error a Seek gives, and whether a body is open behind it |
| RangeReaderLaws.SeekSucceeds | repo/maven/readseek.go:140-181 | Seek succeeds exactly when the reader is open, whence is known, the server answers 206 or 200 and the target is in 0..MaxInt64 |
| RangeReaderLaws.SeekToEndFails | repo/maven/readseek.go:140-181 | against a server that honours Range no Seek to the end of non-empty content succeeds |
| RangeReaderLaws.RunRefines | repo/maven/readseek.go:14-197 | refinement: any sequence of Read, Seek and Close is one that a reader over the bytes in memory could have answered the same way, reporting the network's failures as they are, but for early EOFs; and with these if and only if no Read is cut short |
| RangeReaderDrain.IgnoredRangeExact | repo/maven/readseek.go:93 | an accepted 200 with the whole content keeps the open body in step with the position if and only if the position is 0, for every non-empty content |
| RangeReaderDrain.IgnoredRangeRead | repo/maven/readseek.go:93 | the Read after such a 200 returns the first bytes of the content, the right ones if and only if they recur at the position |
| RangeReaderDrain.IgnoredRangeMisreads | repo/maven/readseek.go:93 | every length is read right at position 0 and at no other position |
| RangeReaderDrain.ReadProgress | repo/maven/readseek.go:103-137 | with progressing bodies a Read gives a byte or the end, and the end only behind the last byte; replies that are not asked for do not matter |
| RangeReaderDrain.DrainExact | repo/maven/readseek.go:103-137 | draining from any open state gives exactly content[pos..size] and then EOF, within size - pos + 1 reads |
| RangeReaderDrain.OneBodyDrain | repo/maven/readseek.go:103-137 | an uncut body drains byte by byte with no further request, in exactly size - pos + 1 reads, the last of which is EOF |
| RangeReaderDrain.SilentTruncation | repo/maven/readseek.go:121-134 | for every content and every k below its size there is a drain that ends without an error after content[..k] |
| RangeReaderLaws.OpenedInvariant | repo/maven/readseek.go:32-61 | a newly opened reader satisfies the invariant |
| Publish.Controller.StoreElements | controller/publish.go:135-193 | objects, remembered element and failure for each upload type, an existing element, failed copies and writes, and extraction for archives only |
| Publish.Controller.ExtractManifestFiles | repo/files/utils.go:15-81 | which entries are stored, under which element names, and where errors end the extraction |
| Publish.Controller.GetAlternativeManifests | repo/s3/s3repo.go:236-256 | the elements found name exactly the listed Package*.swift of the version other than Package.swift |
| Publish.Controller.Remove | repo/s3/s3repo.go:320-331 | the key goes unless its removal fails |
| Publish.Controller.CleanupStoredElements | controller/publish.go:214-250 | remembered elements, listed alternatives, Package.swift and Package.json go, each unless its removal fails |
| Publish.Controller.PublishAction | controller/publish.go:25-131 | objects and response of a whole request, with every exit |
| PublishLaws.ExtractedShape | repo/s3/s3repo.go:54-116 | an extracted file is Package.json or a *.swift whose stem starts with "package" in some spelling, and starts with "Package" exactly if the entry does |
| Extraction.ExtractedExact | repo/files/utils.go:15-81 | an archive entry is extracted if and only if it is a file at the root or in the one directory that starts with scope.name or is name-version, and called package*.swift or package.json in any spelling |
| Extraction.ExtractedText | repo/files/utils.go:22-40 | the same for a name written out of normal segments |
| Extraction.RootedNever | repo/files/utils.go:22-42 | an absolute name is never extracted |
| Extraction.SwiftPMLayout | repo/files/utils.go:31-39 | the layout that SwiftPM writes, the root and name-version are extracted |
| Extraction.ExtractedKey | repo/s3/s3repo.go:77-97 | and stored below the version under the entry's own name with the extension .swift, or as Package.json |
| Extraction.AlternativeExact | repo/s3/s3repo.go:236-256 | the files listed as alternatives are those called Package*.swift but for Package.swift |
| PublishLaws.LoopTracked | controller/publish.go:50-94 | over any number of parts and failures: nothing stored before is lost, what is new or changed is a remembered element or a manifest, and no remembered element existed before |
| PublishLaws.RemoveAllIs | controller/publish.go:218-223 | the removals in sequence take away exactly the keys of the elements |
| PublishLaws.KeyLastSegment | repo/s3/keys.go:12-30 | whatever prefix, scope, name and version do to a path, the last segment of a key is that of its file name |
| Elements.FileNames | models/models.go:85-143 | the file names of archive, signatures, metadata and manifests |
| Elements.SignatureApart | models/models.go:85-143 | a signature has another file name than what it signs, unless the host calls that .sig too |
| Elements.MalformedLosesExtension | models/models.go:121-143 | a malformed type loses even a fixed extension |
| PublishLaws.ObjectKept | controller/publish.go:47-250 | one request, whatever fails in it, leaves every object as it is that is not named like a manifest |
| PublishLaws.ObjectsImmutable | controller/publish.go:81-250 | over any sequence of requests an object that is not named like a manifest never changes or disappears |
| ReleaseImmutability.ArchivesImmutable | controller/publish.go:81-250 | so a stored source archive whose file is not named like a manifest stays, for any MIME table and any requests |
| ReleaseImmutability.ReleasesImmutable | controller/publish.go:81-250 | release immutability, exactly: a stored zip source archive of a one-segment version never changes or disappears, in any store and over any sequence of requests, if and only if its file is not named like a manifest |
| ReleaseImmutability.ManifestNameExact | models/models.go:121-143 | that is when the scope starts with package, in any spelling, and version and extension end in .swift |
| ReleaseImmutability.ArchiveOverwritten | controller/publish.go:135-193 | then a publish of another version text for the same directory replaces it |
| ReleaseImmutability.ReleasesImmutableAmongPlain | controller/publish.go:81-250 | over requests about one-segment versions only, it never changes or disappears if and only if its file name does not start with Package, in this spelling, and end in .swift |
| ReleaseImmutability.LooksLikeManifestExact | models/models.go:121-143 | which is when the scope starts with Package and version and extension end in .swift |
| ReleaseImmutability.ZipExtensionSafe | models/models.go:121-143 | which never happens where the host knows .zip first |
| ReleaseImmutability.SwiftVersionLosesArchive | controller/publish.go:224-249 | and does where the host knows no extension for zip: Package.x 1.swift loses its archive when it is published again |
| ReleaseImmutability.SwiftVersionReplaced | controller/publish.go:135-193 | and there package.x 1.swift can be replaced, though it is not called Package |
| PublishCreated.LoopStored | controller/publish.go:50-94 | a part loop that runs to its end has stored every part, each of them new, and later parts have not changed it |
| PublishCreated.CreatedStoresAll | controller/publish.go:47-131 | a release answered with "created" is stored in full: every part with its own data, a source archive among them, Package.json if required, and besides parts and manifests all objects are what they were |
| PublishCreated.PartKeys | controller/publish.go:135-202 | the key of each part by its form name; any other form name is refused |
| PublishCreated.NoRollback | controller/publish.go:57-61 | after a malformed part, or without an archive, every part handled before stays stored |
| PublishCreated.RefusedExact | controller/publish.go:31-39 | a refused scope or name stores nothing |
| PublishCreated.ExtractionStores | repo/files/utils.go:15-81 | when nothing fails, each key holds the data of the last archive entry extracted to it, and other keys are left alone |
| Rollback.KeyUnderVersion | repo/s3/keys.go:12-30 | for any prefix, scope, name and version every file of the version lies directly below the version's prefix, unless its directory cleans to the dot |
| S3Keys.NoDotSlash | repo/s3/keys.go:12-15 | no key starts with a dot segment |
| Rollback.NothingFoundAtDot | repo/s3/s3repo.go:236-256 | so that the listing of such a version finds nothing |
| Rollback.CleanupKeys | controller/publish.go:214-250 | the cleanup takes away what is remembered, and of the extracted files exactly those it finds: Package.swift, Package.json and, if the listing succeeds and the version is not at the dot, those called Package; each unless its removal fails |
| RollbackExactly.RollbackExact | controller/publish.go:47-250 | for any prefix, any version and whichever lists and removes fail: a rolled-back request for a new version gives back the exact objects from before if and only if no part handled before the exit stored a manifest that the cleanup does not find, other than under the key of such a part, and nothing it stored is stuck |
| RollbackExactly.ResponseExact | controller/publish.go:47-131 | which part stops the loop and what is answered, read off the request and the keys that exist |
| RollbackExactly.ExtractAdds | repo/s3/s3repo.go:54-116 | extraction adds exactly the keys of the entries that its errors let through |
| Rollback.RollbackFindable | controller/publish.go:214-250 | the same condition on what the part loop leaves: all it added can be removed and is remembered or found |
| Rollback.RollbackRestores | controller/publish.go:214-250 | so it does whenever the archives spell their manifests with Package and the version is not at the dot |
| Rollback.StrayManifestStays | controller/publish.go:224-249 | a manifest that is not found survives the rollback, for any version |
| Rollback.MisspeltManifestStays | controller/publish.go:224-249 | package.swift is one |
| Rollback.DotVersionKeepsManifest | controller/publish.go:224-249 | and so is Package@swift-5.swift of a version that is at the dot |
| Versions.ParsedNonNegative | models/models.go:240-275 | every parsed version has non-negative 64-bit fields |
| VersionTexts.ParseSpelling | models/models.go:240-275 | x.y.z with or without a suffix, shorter or longer, is the version with just these numbers, 0 for missing parts, and just this suffix |
| VersionTexts.ParseExact | models/models.go:240-275 | a text is a version if and only if it is such parts, the first three of them numbers of 64 bits, and at most one non-empty suffix without a hyphen |
| VersionTexts.ParseRelease | models/models.go:240-275 | printing three numbers and parsing them gives them back |
| VersionTexts.NewestReleasesFirst | models/models.go:277-290 | in a sorted list no printed release stands behind an earlier one, number by number |
| VersionTexts.SuffixCompares | models/models.go:57-79 | a release stands before its pre-releases |
| Decimals.AtoiExact | models/models.go:265-273 | digits, alone or behind one sign, of a 64-bit value are read, and nothing else is |
| Decimals.ItoaDigits | controller/list.go:115-117 | printing and reading a natural number gives the number back |
| Versions.CompareExact | models/models.go:57-79 | on machine integers Compare has the intended sign if and only if the subtraction of the first differing fields does not overflow |
| Versions.CompareTotalOrder | models/models.go:57-79 | on parsed versions the sign of Compare is a total order whose zero is equality of all four fields |
| Versions.SortComparatorWeak | models/models.go:277-290 | "comparator < 0" is a strict weak order on all strings, despite 1 and -1 for unparseable ones |
| Versions.SortVersions | models/models.go:277-290 | in place: a permutation, parseable versions first in descending order, the rest last |
| Versions.SortedIsNewestFirst | models/models.go:277-290 | sorted by the comparator means exactly: parseable first and descending |
| Versions.NewestFirstUnique | models/models.go:277-290 | two such orders of the same strings agree position by position up to ties |
| Versions.TiedMeaning | models/models.go:277-290 | strings tie exactly when they parse to the same version or both fail to parse |
| SemVer.CompareIsPrecedence | models/models.go:57-79 | for valid pre-release identifiers Compare follows item 11 of Semantic Versioning 2.0.0 if and only if, at the first identifiers that differ, neither is numeric, or both are and have equal length or the shorter is the smaller text, or the only numeric one is the smaller text |
| SemVer.AsciiAgreesExact | models/models.go:69-78 | that condition on two identifiers is exact |
| SemVer.CompareIsPrecedenceNonNumeric | models/models.go:57-79 | so it does for any number of valid non-numeric identifiers |
| SemVer.NumericIdentifiersDisagree | models/models.go:57-79 | and does not for 1.0.0-9 and 1.0.0-10 |
| SemVer.DottedOrder | models/models.go:69-78 | comparing dotted suffixes as strings is comparing their identifiers one by one |
| ListOrder.ReleaseComparatorWeak | controller/utils.go:120-130 | the comparator of listElements, which answers 0 when a version does not parse, is a strict weak order if and only if all versions parse or all parseable ones are equal |
| ListOrder.SortsAgree | repo/collections.go:134-147 | when all versions parse and have no outer spaces, listElements and sortVersionsDesc put the newest first and agree up to ties |
| ListOrder.ListElements | controller/utils.go:107-132 | an empty package is not found; otherwise the slice is sorted in place, newest first if all versions parse |
| ReleaseJson.SortReleases | models/models.go:178-193 | all keys once in SortVersions order, each with its release beside it |
| ReleaseJson.MarshalJSON | models/models.go:195-232 | the text for nil, for nil releases and for any map |
| ReleaseJson.WriteMembers | models/models.go:208-226 | the loop that writes a comma behind every member and cuts the last one off yields a comma between members |
| ReleaseJson.PrintThenRead | models/models.go:195-232 | for keys without quotes, backslashes and control characters the text is a well-formed object and reading it gives the same map |
| ReleaseJson.ReadReleases | models/models.go:195-232 | and its members stand in SortVersions order |
| ReleaseJson.NilListRead | models/models.go:195-200 | a nil list is read back |
| ReleaseJson.NilReleasesRead | models/models.go:201-206 | nil releases are read back |
| ReleaseJsonKeys.ReadsBackExact | models/models.go:208-226 | the text is read back as the members it was printed from if and only if no key has a quote, a backslash or a control character |
| ReleaseJsonKeys.BrokenKey | models/models.go:208-226 | the member of any such key fails or is read with a shorter key |
| ReleaseJsonKeys.EscapedKeyBreaks | models/models.go:208-226 | a backslash or a line feed as the key makes the text unreadable |
| ReleaseJson.QuotedKeyBreaks | models/models.go:208-226 | and so does a quote |
| Json.ReadEscaped | models/models.go:208-226 | a string escaped for JSON is read back as that string, for all strings (RFC 8259, section 7) |
| S3Keys.BuildKeyIsJoin | repo/s3/keys.go:12-15 | for a clean prefix and normal segments, a key is these joined by single slashes |
| S3Keys.ParseBuilt | repo/s3/s3repo.go:411-423 | parseScopeNameVersion recovers scope, name and version from a key, even when the scope equals the prefix |
| S3Keys.ParseElementKey | repo/s3/keys.go:28-30 | the same for the key of an element |
| S3Keys.LastSegmentOfJoin | repo/s3/list.go:76-83 | the last segment of a key or common prefix is its last name |
| S3Listing.ListCommonPrefixes | repo/s3/list.go:15-43 | all common prefixes of all pages in order, or an error if one page fails |
| S3Listing.List | repo/s3/s3repo.go:119-133 | one release for each name below scope/name |
| S3Listing.ListScopes | repo/s3/s3repo.go:334-346 | the names at the top |
| S3Listing.ListInScope | repo/s3/s3repo.go:349-365 | the releases of the scope's packages; a package that cannot be listed is left out |
| S3Listing.ListAll | repo/s3/s3repo.go:368-385 | the releases of all scopes; a scope that cannot be listed is left out |
| S3ListingLaws.ChildrenAre | repo/s3/list.go:15-43 | one level of the listing is the set of next segments of the keys, each once, however the server cuts pages |
| S3ListingLaws.HoldsIsProjected | repo/s3/s3repo.go:411-423 | a release held by the keys level by level is one that parseScopeNameVersion reads off a key |
| S3ListingLaws.ListAllIsProjection | repo/s3/s3repo.go:368-385 | ListAll fails only if the top listing does, and otherwise returns exactly the projection of the keys to the scopes and packages that can be listed, each once; all of it when no page fails |
| Collections.BuildCollectionPackage | repo/collections.go:80-131 | the package that some sort of the elements leads to, with the metadata of its first version |
| Collections.GroupPackages | repo/collections.go:19-25 | the nested maps hold, for each scope and name, exactly the releases of the input, in order |
| Collections.GenerateCollection | repo/collections.go:16-49 | one package for each (scope, name) with a loadable version and none otherwise, sorted by lower-case URL |
| CollectionLaws.VersionsConserved | repo/collections.go:80-131 | a package's versions are exactly its loadable inputs, as often as listed and with their own content; newest first if all parse |
| CollectionLaws.LoadablePermutation | repo/collections.go:80-131 | sorting before loading loses and adds nothing |
| CollectionLaws.MetadataVersionIs | repo/collections.go:92-114 | the release whose metadata is used is the first included one with a non-empty version |
| CollectionLaws.MetadataSource | repo/collections.go:92-131 | package-level metadata is that of the first included version that is not the empty string, or none |
| CollectionLaws.MetadataFromFirst | repo/collections.go:92-131 | it is that of the first included version, whatever the metadata says, if and only if that version is not the empty string |
| CollectionLaws.EmptyVersionMisses | repo/collections.go:92-131 | a package whose only version is the empty string shows no description though its release has one |
| CollectionLaws.BuiltUnique | repo/collections.go:80-131 | without ties among its versions a package has one possible result |
| CollectionLaws.CollectionDeterministic | repo/collections.go:16-49 | two runs in any order of map iteration give the same list, if the lower-cased URLs of the packages with a loadable version differ and no two versions of a package compare equal |
| CollectionLaws.CollectionAscending | repo/collections.go:46-49 | the packages stand in ascending order of their lower-case URLs, which are scope.name |
| Paging.PageInBounds | controller/list.go:82-92 | for every page up to the last, (page-1)*perPage is below the count and nothing wraps around |
| Paging.PageElements | controller/list.go:82-92 | such a page is the slice from (page-1)*perPage to the smaller of page*perPage and the count |
| Paging.PagesTile | controller/list.go:82-92 | pages 1 to totalPages concatenate to the list, for every list and page size |
| Paging.TotalPagesExact | controller/list.go:96-106 | totalPages is the count divided by the page size, rounded up |
| Paging.LinksLead | controller/list.go:96-134 | first, prev, next and last lead to the pages they name and are there exactly when such a page is |
| Paging.LinkedPagesInBounds | controller/list.go:96-134 | every linked page starts inside the list |
| Paging.NextVisitsAll | controller/list.go:96-134 | following next from page 1 visits each page once and ends at last (Swift Package Registry specification, section 4.1) |
| Paging.QueryExact | controller/list.go:66-75 | which page a query asks for: its number cut to what there can be, and page 1 for anything else |
| Paging.LinkedQuery | controller/list.go:115-117 | the page that makeLink prints is the page that is served |
| Paging.BrowseAll | controller/list.go:66-134 | a client that asks for no page and follows next through the printed queries collects the whole list, paged or not |
| Paging.QueriesTile | controller/list.go:66-92 | the answers to the queries 1, 2, ... up to the last page concatenate to the list |
| Paging.BehindLastPage | controller/list.go:82-92 | behind the last page there is nothing |
| Paging.LinksAppended | controller/list.go:128-133 | links that the header already has stay in front |
| Paging.ParseListPagination | controller/list.go:66-75 | the page is at least 1 whatever the query says, and paging is off for a page size of 0 or less |
| Sorting.SortFunc | models/models.go:277-290 | slices.SortFunc as its callers may rely on it: a permutation, in order if the comparator is a strict weak order |
| Sorting.SortsAgreeUpToTies | controller/utils.go:120-130 | two sorts of the same elements agree position by position up to ties, whatever the algorithm |

## Left out

- HTTP, S3 and file system calls, timeouts, TLS and server start-up: replaced by a store whose requests succeed, report absence or fail.
- Authentication, OIDC, cookies, JWT, templates, API validation, certificates, logging and command-line tools.
- XML, zip and SHA-256: abstract. Archives are read by a function that is a parameter, a checksum is a tag on the data.
- JSON decoding beyond what `MarshalJSON` can write: the reader accepts no white space, numbers, booleans, arrays or surrogate pairs.
- Time stamps in documents and objects, and everything of a release besides its URL in the release list.
- The MIME table of the host: a parameter. Some results ask that text/x-swift and application/json are well-formed types.
- Unicode case folding: `ToLower` changes ASCII letters only.
- The algorithm of `slices.SortFunc`: an insertion sort stands for it, and every result uses only its documented contract, so that nothing depends on the order of ties.
- MavenPublish.MutexTable.MutexFor: the look-up under `metadataMu` is one atomic step of the protocol, because that mutex is held for nothing else.
- MavenIndex.FreeIndexComplete: asks that index GETs fail only for an absent index and that index PUTs succeed, because the code gives no guarantee otherwise.
- MavenCatalogue.CatalogueExact: speaks of states in which no call is under way; readers between the index's DELETE and PUT see no index.
- MavenSafety.NoLostVersion: takes a 404 to mean that the document is absent, and uploads to be tame; `MavenDetours.VersionReachesDocument` shows why.
- MavenArchives.ListedHasArchive: asks for files with ordinary extensions, not that of checksums, and for uploads that stay clear of the index; a version with a malformed percent escape sends its archive to the base URL.
- MavenLocations.SameDocumentSameMutex: the configured base URL and group prefix have no percent escapes. What a server makes of two spellings of one location is its own affair; here they are one location.
- Publish.Controller.PublishAction: the header checks and the failure to open the multipart form before the part loop are not modelled; they store nothing. The buffered reader around a part is part of the data.
- RollbackExactly.RollbackExact: a new version is one without objects under its prefix or under its files' keys. The exits for a malformed part and for a missing archive do not roll back in the code, so they are no rollbacks here.
- ReleaseImmutability.ReleasesImmutable: handles one request at a time; two simultaneous publishes of the same version are not protected by the code. `Exists` is taken to be accurate. The archive's own version is one path segment and the host's extension for zip has no slash; `ReleaseImmutability.ArchivesImmutable` has neither restriction and gives one direction. The store is any store, since one that already holds the keys of the other publishes would refuse them.
- Survival of an existing version's manifests after a conflict: the cleanup removes them.
- Rollback on the Maven and file backends, and the file backend as a whole.
- RangeReaderLaws.RunRefines: assumes a server that honours Range in the replies that are asked for; see `RangeReaderDrain.IgnoredRangeExact` for one that does not.
- ReleaseJsonKeys.ReadsBackExact: speaks of the members in printed order, not of the map that a decoder builds from them.
- S3ListingLaws.ListAllIsProjection: asks that every key has the form prefix/scope/name/version/file and that each common prefix is reported once across pages.
- Paging.PagesTile: asks that count plus page size fit in 64 bits. Page numbers typed by a client whose product with the page size overflows are outside.
- Collections.BuildCollectionPackage: manifests, dates, signatures and people of a version are one opaque content; loading is a function of scope, name and version.
- The loops that only log, and the texts of errors.
