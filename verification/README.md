# A model of the release, planning and scanning tools

This project models the parts of the repository's `scripts/` that carry an algorithm or a protocol, and
proves what they are for. Each model has its source's form: loops and buffers are methods over variables
and arrays, the tar reader is a class with its working fields, pure code is functions, and protocols
between processes are state machines over their system or registry calls.

| part | modules | main results |
|---|---|---|
| canonical package tarballs | Text, TarWriter, TarReader, TarTheorems, TarCodec, TarCanonical, TarSpelling, Tarball | round trip, confluence, idempotence, limits, exactly which archives are accepted and as what |
| release evidence | Versions, Evidence, WriteOnce | exact version order, uniqueness of the final document, write-once files and truthful outcomes under every interleaving |
| publication | Kahn, Plan, Publish, Release | least topological order or the exact blocked set, one publish per package, dependency-closed registry over all interrupted runs, every run resumable |
| affected-path planner | Dependents, Strings, Base64Url, PlanCodec | least dependent closure, injective identities, plan contents and round trip |
| scanners and guards | RustMask, RustLaws, GenerationGuard, Search, ToolPairing | valid and idempotent masks, a law per kind of token, generations that fence a history, exact chunked search, exact call/result pairing |

`Common` and `Sorting` hold shared vocabulary and a stable sort with its laws.

Two promises turned out to hold only under a condition, and the model states it as an equivalence.
The text decoder drops a leading byte order mark, so a member path whose split-off name opens with that
mark does not survive the canonical form: the round trip and idempotence hold exactly when no member has
such a path (`TarCanonical.RoundTripExactly`, `TarCanonical.CanonicalizationIdempotent`).
`Tarball.RoundTripCanFail` gives an archive that the reader accepts under the release limits and for which
both fail. The compressed canonical file may also exceed the compressed-size limit although the original
met it: `Tarball.CanonicalTarballIsFixed` shows that this and the byte order mark are the only obstacles,
and `Tarball.CompressedLimitCanFail` gives a compressor, limits and a tarball for which it is the obstacle.

## Model

| member | source | states |
|---|---|---|
| Text.ValidAroundAscii | scripts/release-evidence.ts:324-332 | Well-formed UTF-8 can be cut or joined at any ASCII byte, so splitting a path at a slash and putting it together again never makes or breaks validity |
| Text.ValidMeans | scripts/release-evidence.ts:324-332 | Bytes are well-formed exactly when they are the UTF-8 form of some sequence of Unicode scalar values |
| Text.LexMeans | scripts/release-evidence.ts:525-525 | Path order is that of unsigned bytes at the first difference, a prefix coming first |
| Text.OctalPlace | scripts/release-evidence.ts:315-322 | An octal digit counts for its place: in front of n digits it adds itself times eight to the n |
| Text.OctalRoundTrip | scripts/release-evidence.ts:315-322 | Every zero-padded octal numeral with NUL and space terminators reads back as its value, for all safe integers |
| TarWriter.SplitPathMeaning | scripts/release-evidence.ts:490-499 | A split loses nothing, fits the 100 and 155 byte fields, uses the prefix only for long paths, and exists exactly when some slash allows it |
| TarWriter.SplitUstarPath | scripts/release-evidence.ts:490-499 | The backward scan finds that split |
| TarWriter.HeaderSum | scripts/release-evidence.ts:516-518 | The checksum of every header fits six octal digits |
| TarWriter.WriteTarString | scripts/release-evidence.ts:476-480 | Writes the bytes in place when they fit and changes nothing otherwise |
| TarWriter.WriteTarOctal | scripts/release-evidence.ts:482-488 | Writes the zero-padded numeral and its NUL in place, or fails when it has too many digits and changes nothing |
| TarWriter.CanonicalTarHeader | scripts/release-evidence.ts:501-522 | Filling the buffer in place gives the field-by-field header layout, and fails exactly on an unsplittable path or an oversized file |
| TarWriter.CreateCanonicalTar | scripts/release-evidence.ts:524-534 | The archive is the blocks of the members sorted by path bytes plus two zero blocks; creation fails exactly when some member is not writable, with the error of the first such member in path order |
| TarReader.SumBlanked | scripts/release-evidence.ts:334-339 | The checksum loop counts the stored field as eight spaces |
| TarReader.HeaderChecksumMatches | scripts/release-evidence.ts:334-339 | Compares the stored octal with that sum; a field that is not octal is an error of its own |
| TarReader.ReadHeader | scripts/release-evidence.ts:433-437 | The header checks run in the source's order, checksum loop first, with the first error reported |
| TarReader.ReadPaxRecord | scripts/release-evidence.ts:367-385 | An accepted PAX record moves strictly forward inside the data and carries a well-formed value |
| TarReader.ParsePaxAttributes | scripts/release-evidence.ts:363-388 | The PAX loop equals the record-by-record reading, errors included, with later records replacing earlier ones |
| TarReader.GnuLongPath | scripts/release-evidence.ts:390-398 | A long path is well-formed text, without its terminator and one final newline |
| TarReader.Step | scripts/release-evidence.ts:433-471 | One turn of the reader moves at least one block forward and stays inside the archive |
| TarReader.Reader.constructor | scripts/release-evidence.ts:417-422 | The reader starts at offset 0 with no member and no pending path |
| TarReader.Reader.Pax | scripts/release-evidence.ts:441-446 | A PAX header changes only the pending path and the offset; a global one may not name a path |
| TarReader.Reader.Member | scripts/release-evidence.ts:454-471 | A member passes every check or stops the reader, and the seen set and both counters stay equal to what the member list says |
| TarReader.Reader.Advance | scripts/release-evidence.ts:433-471 | The in-place turn of the loop is the step function, on every input and with the same error |
| TarReader.ParseTarEntries | scripts/release-evidence.ts:401-474 | The loop over the working variables returns exactly what the reader's specification says, for every byte string |
| TarTheorems.HeaderFields | scripts/release-evidence.ts:501-522 | Where each field of a written header lies |
| TarTheorems.HeaderConstants | scripts/release-evidence.ts:501-522 | Owner, group and time are zero numerals, the magic is "ustar" NUL "00", and link name, owner names and device numbers are empty |
| TarTheorems.PaddedStringReads | scripts/release-evidence.ts:324-332 | A NUL-padded or full-width text field reads back, up to a leading byte order mark |
| TarTheorems.GoodPathParts | scripts/release-evidence.ts:341-354 | The parts of a safe path are well-formed text without NUL, so the header fields can hold them |
| TarTheorems.SafePathMeans | scripts/release-evidence.ts:341-354 | A path is safe exactly when it is "package" and further names between slashes, none empty, one or two dots, or with a backslash or NUL, with or without a slash at the end |
| TarTheorems.SafeModeMeans | scripts/release-evidence.ts:457-458 | A mode is safe exactly when it is three octal digits of which the last does not grant writing |
| TarTheorems.CanonicalHeaderReads | scripts/release-evidence.ts:433-437 | The reader accepts every written header and gets its name, prefix and size back |
| TarCodec.AcceptedArchive | scripts/release-evidence.ts:401-474 | Every accepted byte string: distinct safe paths, safe modes, empty directories, sizes and counts within limits, disjoint payload slices in order, then at least two zero blocks and only zeros |
| TarCodec.CanonicalNeverLonger | scripts/release-evidence.ts:524-544 | Rewriting an accepted archive never makes it longer |
| TarCodec.BlockAt | scripts/release-evidence.ts:356-361 | Inside any archive a member's block occupies a header, its payload and padding to the next block boundary |
| TarCodec.StepOnBlock | scripts/release-evidence.ts:433-471 | On a canonical block the reader takes its member branch with exactly that member's header, path and payload |
| TarCanonical.CanonicalReadsBack | scripts/release-evidence.ts:401-539 | Reading a canonical archive gives the sorted members with each path read back, whatever the paths are |
| TarCanonical.RoundTripExactly | scripts/release-evidence.ts:401-539 | Parsing the written archive gives exactly the members, sorted by path bytes, if and only if no split-off name opens with a byte order mark |
| TarCanonical.BodyInjective | scripts/release-evidence.ts:524-534 | Different member lists have different archive bytes |
| TarCanonical.CanonicalFormIsConfluent | scripts/release-evidence.ts:524-544 | Two accepted member lists have the same canonical archive if and only if they hold the same members |
| TarCanonical.ArchivesCanonicalizeAlike | scripts/release-evidence.ts:401-544 | The same for archives: order, timestamps, owners and path headers do not matter, and nothing else is forgotten |
| TarCanonical.CanonicalizationIdempotent | scripts/release-evidence.ts:401-544 | A canonical archive parses within every limit the original met and rewrites to itself, if and only if no split-off name opens with a byte order mark |
| TarSpelling.RawHeaderReads | scripts/release-evidence.ts:433-437 | A header spelled field by field is accepted with its name, prefix, size and mode, whatever its owner, time, link name and other unread bytes |
| TarSpelling.StepOnPiece | scripts/release-evidence.ts:433-471 | At any place in any archive the type byte alone decides between PAX, GNU and member handling, on exactly that payload |
| TarSpelling.PaxReads | scripts/release-evidence.ts:363-388 | Records spelled as decimal length, space, key, equals sign, value and newline read as exactly the attributes they state, a later one replacing an earlier one |
| TarSpelling.PaxStep | scripts/release-evidence.ts:441-446 | A PAX header that states "path" sets the next member's path; a global one that does is an error and otherwise changes nothing |
| TarSpelling.GnuReads | scripts/release-evidence.ts:390-398 | A GNU long path is the text before the first NUL, or all of it, without one final newline |
| TarSpelling.ArchiveReads | scripts/release-evidence.ts:401-474 | An archive of spelled headers, PAX and GNU extensions, payloads and any padding, then at least two zero blocks, reads as exactly the members it states: path from the last extension that gives one, files for type NUL and "0", directories for "5" |
| TarSpelling.EveryAcceptableListArises | scripts/release-evidence.ts:401-474 | Every member list that meets the reader's conditions is what some archive reads as, paths of any length included, so the conditions of an accepted archive are exact |
| TarSpelling.GlobalPathIsRefused | scripts/release-evidence.ts:443-443 | A global header that states a path is refused wherever it stands |
| TarSpelling.OtherTypesAreRefused | scripts/release-evidence.ts:459-460 | A member of any other type is refused as unsupported |
| TarSpelling.ExtensionNeedsMember | scripts/release-evidence.ts:426-426 | An archive that ends after a path extension is refused for that |
| TarSpelling.EndIsStrict | scripts/release-evidence.ts:425-431 | Fewer than two zero blocks is a missing terminator, anything but zeros behind them is trailing data, and more zeros are accepted |
| Tarball.CanonicalizePackageTarball | scripts/release-evidence.ts:401-544 | Limits, decompression, reading and writing in order, with the first failure and its reason reported |
| Tarball.StagesInOrder | scripts/release-evidence.ts:401-415 | Unusable limits, compressed size, gzip stream and unpacked size are checked in this order before anything is read |
| Tarball.PatchedBytes | scripts/release-evidence.ts:535-538 | Patching a gzip header zeroes bytes 4 to 7, sets byte 9 to 255 and changes nothing else |
| Tarball.TarballsCanonicalizeAlike | scripts/release-evidence.ts:535-544 | Two accepted tarballs canonicalize to the same bytes if and only if they hold the same members |
| Tarball.CanonicalTarballIsFixed | scripts/release-evidence.ts:541-544 | A canonical tarball is a fixed point if and only if it meets the compressed limit and no split-off name opens with a byte order mark |
| Tarball.RoundTripCanFail | scripts/release-evidence.ts:328-328 | An archive accepted under the release limits, with one member, whose canonical form does not read back as that member and is not stable |
| Tarball.CompressedLimitCanFail | scripts/release-evidence.ts:401-406 | A faithful compressor, valid limits and an accepted tarball without a byte order mark whose canonical form is refused for its compressed size |
| Versions.CompareNumericIsNumeric | scripts/release-evidence.ts:164-167 | Length-then-text comparison of canonical numerals is comparison of the unbounded numbers |
| Versions.VersionSpelled | scripts/release-evidence.ts:45-45 | Three canonical numerals between dots are a stable version of those numbers, in that order |
| Versions.StableMeans | scripts/release-evidence.ts:45-45 | Only such texts are stable versions |
| Versions.OrderMeans | scripts/release-evidence.ts:170-181 | The order compares major, then minor, then patch |
| Versions.CompareStableVersions | scripts/release-evidence.ts:170-181 | Comparison is lexicographic order of the three numbers, and fails exactly on a version that is not stable |
| Versions.VersionOrderIsTotal | scripts/release-evidence.ts:170-181 | The order is total, antisymmetric and transitive, and 0 only on equal texts |
| Versions.LatestIsMonotonic | scripts/release-evidence.ts:184-188 | The latest check rejects exactly numeric regressions and versions that are not stable |
| Evidence.Classify | scripts/release-evidence.ts:657-671 | Publish exactly on absence, skip exactly when tarball digest, integrity text, manifest digest and dependencies all agree, conflict otherwise |
| Evidence.TheFinalIsValid | scripts/release-evidence.ts:689-767 | The document determined by valid expected evidence passes final validation |
| Evidence.ValidExpectedMeans | scripts/release-evidence.ts:585-648 | Expected evidence is valid exactly when it has the schema version, a commit, a stable version, and one well-formed record of that version for every package of the table, in table order |
| Evidence.LookupMeans | scripts/release-evidence.ts:44-44 | The table row for a name is the last one with that name |
| Evidence.CreateFinalEvidence | scripts/release-evidence.ts:769-801 | Creation gives the one final document, exactly when inputs are valid, every package was observed with its expected evidence and nothing unknown was observed; otherwise the error is that of the first check, and the first package, that fails |
| Evidence.VerifyFinalEvidence | scripts/release-evidence.ts:803-840 | Verification accepts exactly one document per valid expected evidence and digest |
| Evidence.FinalMeans | scripts/release-evidence.ts:803-840 | The accepted document carries the digest and the release's identity, and every package in it is the expected record with the same digests and dependencies in the registry |
| WriteOnce.InvStep | scripts/release-evidence.ts:876-901 | Every system call of every writer, failing ones and the cleanup included, keeps the protocol's invariant |
| WriteOnce.DestinationIsImmutable | scripts/release-evidence.ts:871-901 | Over every interleaving the destination never disappears and never changes once it exists |
| WriteOnce.AbsentOrComplete | scripts/release-evidence.ts:871-901 | The destination is absent or holds the complete bytes of one writer, never a part |
| WriteOnce.WinnersAgree | scripts/release-evidence.ts:888-897 | A writer that returned has exactly the destination's bytes from then on, and one that reported a conflict had different ones |
| WriteOnce.ReturnedWritersHadEqualBytes | scripts/release-evidence.ts:888-897 | Any two writers that returned had the same bytes |
| WriteOnce.FailureHasCause | scripts/release-evidence.ts:881-901 | A writer fails only after one of its own calls failed |
| WriteOnce.EndedWriterIsToldTheTruth | scripts/release-evidence.ts:888-897 | A writer that ended without a failed call succeeded exactly when the destination holds its bytes, created or found, and was told of a conflict otherwise |
| WriteOnce.FinishAlone | scripts/release-evidence.ts:881-901 | No other writer can stop it: from every reachable state a writer with a temporary file ends within seven calls of its own |
| Kahn.GreedyIsLeast | scripts/ci-release-publish.ts:911-916 | Taking the earliest declared available package each time gives the lexicographically least topological order |
| Kahn.BlockedSetHasCycle | scripts/ci-release-publish.ts:923-929 | Packages that all wait for each other contain a dependency cycle |
| Kahn.CycleMeansNoOrder | scripts/ci-release-publish.ts:923-929 | With a cycle, self-dependency included, no order exists |
| Kahn.CountDependencies | scripts/ci-release-publish.ts:899-909 | The counters hold the number of dependencies and the dependents table is their reverse |
| Kahn.Release | scripts/ci-release-publish.ts:917-921 | Placing a package lowers exactly its dependents' counters and readies exactly those that reach zero |
| Kahn.Order | scripts/ci-release-publish.ts:898-931 | The loop succeeds exactly when there is no cycle, then with the least topological order; otherwise it names the largest set no order can place, in declaration order |
| Plan.IndexRecords | scripts/ci-release-publish.ts:860-866 | The table by name exists exactly when no name repeats, and files every record |
| Plan.ByDirMeans | scripts/ci-release-publish.ts:868-868 | The table row for a directory is the last one with that directory |
| Plan.MatchDeclared | scripts/ci-release-publish.ts:868-891 | Matching succeeds exactly when the records are the declared packages, one each and no other; otherwise the error is a repeated record, the failure of the first directory that fails, or a record left over |
| Plan.CheckDependencies | scripts/ci-release-publish.ts:893-907 | Passes exactly on one common version with every internal dependency known, pinned to it and present; otherwise the error is that of the first check, and the first record, that fails |
| Plan.PlanExpectedEvidencePublication | scripts/ci-release-publish.ts:858-931 | A plan is a permutation of the declared records, dependencies first and least by declaration index; on plannable input the cycle error comes exactly when there is a cycle and names the largest unplaceable set in declaration order; every other error is that of the first check that fails |
| Publish.CheckExact | scripts/ci-release-publish.ts:756-765 | Accepts exactly an observation of the expected evidence whose latest tag is the release version |
| Publish.PublishRetainedPackage | scripts/ci-release-publish.ts:781-856 | For every registry behaviour the operation makes exactly the listed calls in order, returns an observation exactly when it is the last answer and proves the release, and otherwise reports the error that the last call determines |
| Publish.AwaitVisibility | scripts/ci-release-publish.ts:837-855 | The visibility loop returns exactly a last answer that proves the release, and otherwise the error that the last answer determines |
| Publish.PublishAtMostOnce | scripts/ci-release-publish.ts:793-812 | Publish is called at most once and only right after the first observation reported absence |
| Publish.AttemptsExactlyOnAbsence | scripts/ci-release-publish.ts:793-803 | Publish is attempted exactly when the tarball is readable and the first observation reports absence |
| Publish.WaitsUntilSettled | scripts/ci-release-publish.ts:837-852 | After an accepted publish observations and sleeps alternate, go on while the answers settle nothing and the budget lasts, and end with an observation |
| Publish.BoundedWaiting | scripts/ci-release-publish.ts:837-852 | After an accepted publish at most retries + 1 observations and retries sleeps, one sleep between two observations |
| Publish.StopsAtFirstAnswer | scripts/ci-release-publish.ts:793-852 | A found package or a failure that is not transient is the last answer; a transient failure is survived only after an accepted publish |
| Publish.ReturnsOnlyExact | scripts/ci-release-publish.ts:756-765 | What is returned was observed and is exactly the expected evidence, tagged latest |
| Release.InvStep | scripts/ci-release-publish.ts:934-958 | Every call, crash and restart of every run, and every late arrival of a publish, keeps the invariant |
| Release.RegistryAlwaysDependencyClosed | scripts/ci-release-publish.ts:934-943 | Over all runs, interrupted and restarted anywhere, with publishes that arrive late, the registry's part of the release is dependency-closed |
| Release.PublishOnlyAfterDependencies | scripts/ci-release-publish.ts:934-943 | Publish is attempted only after this run observed every internal dependency with exactly its evidence |
| Release.SweptMeansReleased | scripts/ci-release-publish.ts:945-958 | A completed final sweep holds an exact observation of every package, and the registry holds the whole release from then on |
| Release.ReleaseCanBeResumed | scripts/ci-release-publish.ts:934-958 | Whatever happened before, unless other bytes took a version of the plan: a new run, left alone with a cooperating registry, completes the release |
| Release.PlannedOrderIsValid | scripts/ci-release-publish.ts:858-943 | The planner's result is an order these theorems apply to |
| Dependents.SelectInitial | scripts/ci-dev-affected.ts:1116-1117 | The starting selection has every touched name once, by the last touched unit of that name, and queues exactly those |
| Dependents.Closure | scripts/ci-dev-affected.ts:1118-1128 | The worklist terminates on every graph, cyclic ones included, with the least closed set, each id once, by the last starting unit of the id or else a unit listed as dependent of a member |
| Dependents.ExpandWithDependents | scripts/ci-dev-affected.ts:1114-1142 | The result is the least set with the touched packages and all their dependents, each name once and sorted; each member is a touched package, the last of its name, or a workspace package that depends on a member |
| Dependents.ExpandCargoDependents | scripts/ci-dev-affected.ts:1460-1466 | The same for Cargo units over the recorded reverse dependencies, each member an initial or a recorded unit |
| Dependents.DependentsAreListed | scripts/ci-dev-affected.ts:1132-1142 | The dependents of a name are exactly the packages with a table that lists it, by a workspace version or as a package of the workspace |
| Dependents.RecordedDependents | scripts/ci-dev-affected.ts:1464-1464 | The dependents of a Cargo unit are exactly the known units of the package ids recorded for it |
| Strings.JoinSplit | scripts/release-evidence.ts:174-175 | Joining the parts of a text with the separator gives the text back |
| Strings.SplitJoin | scripts/ci-dev-affected.ts:1304-1308 | Splitting joined parts gives the parts back when none contains the separator |
| Base64Url.RoundTrip | scripts/ci-dev-affected.ts:1370-1370 | Decoding an encoding gives the bytes back (section 5 of RFC 4648, without padding) |
| Base64Url.Injective | scripts/ci-dev-affected.ts:1370-1370 | Distinct bytes have distinct encodings |
| Base64Url.ColonFree | scripts/ci-dev-affected.ts:1369-1370 | An encoding never contains the identity separator |
| Base64Url.Alphabet | scripts/ci-dev-affected.ts:1370-1370 | The letters are A to Z, a to z, 0 to 9, minus and underscore, in this order |
| Base64Url.BitOrder | scripts/ci-dev-affected.ts:1370-1370 | Each group of up to three bytes is one number, most significant bits first |
| Base64Url.GroupByGroup | scripts/ci-dev-affected.ts:1370-1370 | Groups are encoded one after the other |
| PlanCodec.IdentityInjective | scripts/ci-dev-affected.ts:1369-1370 | Domain, id and location can be read off an identity |
| PlanCodec.IdentityParts | scripts/ci-dev-affected.ts:1369-1370 | An identity is its domain and the encodings of its id and location, between colons |
| PlanCodec.ResolveCwdText | scripts/ci-dev-affected.ts:1525-1525 | Every absolute directory survives its text relative to the root, wherever it lies |
| PlanCodec.LoadMeans | scripts/ci-dev-affected.ts:1926-1930 | Loading fails as duplicate exactly when all tasks decode and a key or identity repeats |
| PlanCodec.TaskRoundTrip | scripts/ci-dev-affected.ts:1523-1546 | An encoded task decodes exactly when its identity is not empty and its directory text is safe; it then has the same key, identity, description, command, directory, capabilities and phase, and encodes to the same text |
| PlanCodec.PlanContents | scripts/ci-dev-affected.ts:1338-1350 | A built plan is, in order: the planned tasks that are not native builds, the native producer exactly when the addons are needed, one build per TypeScript unit, one per crate or the whole workspace, each with its command, directory, capabilities and phase |
| PlanCodec.ProducerExactlyWhenNeeded | scripts/ci-dev-affected.ts:1343-1347 | The addons are needed exactly for a planned task or TypeScript unit that builds or uses them, for the whole workspace, or for a selected crate they are built from |
| PlanCodec.BuiltPlanIsDistinct | scripts/ci-dev-affected.ts:1338-1350 | Every built plan has pairwise distinct keys and identities |
| PlanCodec.BuiltPlanRoundTrips | scripts/ci-dev-affected.ts:1926-1963 | Loading an encoded built plan never trips the duplicate check, succeeds exactly when every directory text is safe, and encodes back to the same plan |
| PlanCodec.InventoryUnitIsSafe | scripts/ci-dev-affected.ts:1304-1308 | Every directory that comes out of the inventory's normalization, such as one ending in two dots, gives a task the decoder lets in |
| PlanCodec.PlainDirectoryIsAccepted | scripts/ci-dev-affected.ts:1304-1308 | A directory of proper names, none of which ends in two dots or holds a backslash, is its own normal form, also with "./" in front |
| RustMask.ValidMask | scripts/telegram-daemon-generation-guard.ts:614-699 | A valid mask keeps length and newlines, changes other characters only to spaces, and contains no double quote and no comment opener |
| RustMask.PlainTextUnchanged | scripts/telegram-daemon-generation-guard.ts:614-699 | Text without slashes and quotes is its own mask |
| RustMask.MaskIsIdempotent | scripts/telegram-daemon-generation-guard.ts:614-699 | The mask of a valid source is valid and is its own mask: every kept lifetime stays unclosed and every blank hides its token completely |
| RustMask.StringEndMeans | scripts/telegram-daemon-generation-guard.ts:658-668 | A string literal ends exactly behind its first quote that no odd run of backslashes escapes, unless an unescaped newline comes first |
| RustMask.CharEndMeans | scripts/telegram-daemon-generation-guard.ts:673-685 | The same for an apostrophe |
| RustMask.NestedCommentIsOne | scripts/telegram-daemon-generation-guard.ts:627-641 | A comment inside a comment is skipped as a whole, at every depth |
| RustMask.BlockCommentEnd | scripts/telegram-daemon-generation-guard.ts:627-640 | The depth loop finds the end of the nested comment, or none |
| RustMask.StringLiteralEnd | scripts/telegram-daemon-generation-guard.ts:656-670 | The scan ends behind the first unescaped quote and rejects a bare newline |
| RustMask.CharLiteralEnd | scripts/telegram-daemon-generation-guard.ts:673-685 | The scan ends behind the first unescaped apostrophe on the line |
| RustMask.RustLexicalSource | scripts/telegram-daemon-generation-guard.ts:614-699 | Blanking in place gives exactly that mask, reports valid exactly when there is one, and in every case only blanks |
| RustMask.MatchBrace | scripts/telegram-daemon-generation-guard.ts:717-728 | A declaration ends at the first brace that balances its first open brace, and is malformed exactly when there is none |
| RustLaws.DepthCounts | scripts/telegram-daemon-generation-guard.ts:717-726 | The depth is the number of open braces less the number of closing ones |
| RustLaws.MaskShift | scripts/telegram-daemon-generation-guard.ts:614-699 | The mask of the rest does not depend on what stands in front, as long as no word is cut |
| RustLaws.TextIsKept | scripts/telegram-daemon-generation-guard.ts:696-696 | Text between tokens is kept as it is, and masking goes on behind it |
| RustLaws.LineComment | scripts/telegram-daemon-generation-guard.ts:621-626 | A line comment is blanked up to its newline and no further; the source is valid exactly when the rest is |
| RustLaws.BlockComment | scripts/telegram-daemon-generation-guard.ts:627-643 | A block comment is blanked as a whole, newlines kept, and masking goes on behind it |
| RustLaws.UnclosedComment | scripts/telegram-daemon-generation-guard.ts:640-640 | A block comment without any closer makes the source invalid |
| RustLaws.RawString | scripts/telegram-daemon-generation-guard.ts:644-655 | A raw string ends behind the first quote followed by as many hashes as its opener has |
| RustLaws.UnclosedRawString | scripts/telegram-daemon-generation-guard.ts:651-651 | A raw string without its closer makes the source invalid |
| RustLaws.StringLiteral | scripts/telegram-daemon-generation-guard.ts:656-672 | A string or byte string is blanked with its quotes, and masking goes on behind it |
| RustLaws.UnclosedString | scripts/telegram-daemon-generation-guard.ts:667-669 | A string that is not closed before an unescaped newline makes the source invalid |
| RustLaws.CharLiteral | scripts/telegram-daemon-generation-guard.ts:673-689 | A character or byte literal is blanked with its apostrophes, and masking goes on behind it |
| RustLaws.LoneApostrophe | scripts/telegram-daemon-generation-guard.ts:690-694 | An apostrophe that closes nothing on its line is kept exactly when a lifetime follows, and otherwise makes the source invalid |
| GenerationGuard.Evaluate | scripts/telegram-daemon-generation-guard.ts:763-820 | The lists hold exactly the changed protected sites and, for every family, the changed native authorities; malformed exactly when some declaration is missing or malformed |
| GenerationGuard.Run | scripts/telegram-daemon-generation-guard.ts:889-903 | A commit passes exactly when policy changes raise the contract version, nothing is malformed and every changed family raised its generation |
| GenerationGuard.DecisionSpelledOut | scripts/telegram-daemon-generation-guard.ts:763-903 | After bootstrap a commit passes exactly when a changed guard or policy raises the contract version, everything protected is declared where it is protected, every authority is known, and each family with a difference states a higher generation, all on the raw tables |
| GenerationGuard.StepRaisesOrKeeps | scripts/telegram-daemon-generation-guard.ts:889-903 | An accepted commit leaves the generation and everything protected before or after it alone, or raises the generation |
| GenerationGuard.GenerationsFenceHistory | scripts/telegram-daemon-generation-guard.ts:535-549 | Over every accepted history, with inventories that may change but always protect the constant, a generation never falls; between two commits of equal generation no commit changes the generation, the native authority or anything protected before or after it |
| GenerationGuard.AuthorityChangeRaisesAll | scripts/telegram-daemon-generation-guard.ts:790-797 | A native authority change raises all three generations in the same commit, whatever the inventories |
| Search.WindowCoversNew | scripts/dev-link.ts:172-181 | An occurrence that ends in the newly read bytes lies wholly inside the buffer window |
| Search.CopyDown | scripts/dev-link.ts:179-179 | The overlap moves to the front of the buffer, overlapping ranges included |
| Search.FileContainsBytes | scripts/dev-link.ts:163-188 | For every file, needle and pattern of short reads the answer is whether the needle is non-empty and occurs, without a write outside the buffer |
| ToolPairing.RecordCalls | scripts/tool_io.py:172-199 | The calls of a message enter the pending table, and a repeated id keeps its place with the newer call |
| ToolPairing.EventsAreRecorded | scripts/tool_io.py:164-207 | The events of a session are exactly its wanted calls and results, each as its line states it, in order |
| ToolPairing.IterToolInvocations | scripts/tool_io.py:154-230 | The stream is exactly the unlimited stream, cut after the first member that reaches the limit |
| ToolPairing.LimitIsExact | scripts/tool_io.py:371-374 | The limit fixes one prefix; with a positive limit the yielded weight exceeds it by at most one, and by nothing when calls are counted |
| ToolPairing.WeightCounts | scripts/tool_io.py:371-374 | Limited by calls every invocation counts once; limited by events one with a result counts twice |
| ToolPairing.PendingExact | scripts/tool_io.py:163-207 | After any events the table holds exactly the calls whose id was not named again, in the order in which their pending runs began |
| ToolPairing.ResolvedExact | scripts/tool_io.py:201-220 | The yielded pairs are exactly the calls whose id is next named by a result, in the order of the results |
| ToolPairing.TraceExact | scripts/tool_io.py:154-230 | Every member pairs a call with a later result of the same id in the same session or shows an unanswered call; no call appears twice; exactly the due calls appear |
| ToolPairing.EveryCallOnceUnlessReused | scripts/tool_io.py:154-230 | With unresolved calls included and no limit hit, a wanted call is yielded exactly once, and not at all exactly when its id is reused while it is pending |

## Left out

- gzip, SHA-256 and SHA-512: the compressor is any pair whose decompressor undoes the compressor after the MTIME and OS bytes are patched (section 2.3 of RFC 1952); digests are opaque texts.
- Strings of the tar codec are their UTF-8 bytes; strings elsewhere are character sequences, and the plan codec takes any injective encoding of text as bytes, so lone surrogates are not modelled.
- JSON parsing and shape checks (missing or extra keys, wrong types, a plan task without its optional directory), canonical JSON text and key order: documents are typed records, and maps carry no order.
- The TypeScript parser, the header regular expressions of `rustDeclaration` and the canonical text of a declaration: a commit is a table of extracted declarations and digests. The bootstrap test is a parameter.
- Reading environment variables, npm, git, cargo, HTTP, processes, console output and clocks: their answers are parameters or arbitrary.
- The fixed table of public packages: any finite table takes its place.
- Path selection in the affected planner (`planTasks`, `selectTsBuildUnits`, the choice of crates): the builder takes their results; the legacy tasks it receives have distinct keys, no identity of their own and no key of a build phase, as `planTasks` makes them. `localeCompare` is an arbitrary comparison.
- `inspectPackageTarball` and `validateExpectedTarball` (summing sizes and comparing a package manifest with a record), `createExpectedEvidence` and `writeImmutableEvidence` (validate, then call what is modelled), `validateAffectedAggregate` (one comparison per job result).
- `decodeBunShimMetadata` and `isCompletePortableExecutable` (fixed-offset field checks on a buffer), `ReservoirSample` (a random replacement whose point is its distribution).
- Search.FileContainsBytes: the file is a regular file that does not change while it is read; I/O errors other than the oversized read of an empty needle, which the original also turns into false, are not modelled.
- Release: the registry is changed only by this release's publishes, shows only what it holds, never loses or changes a version, and starts dependency-closed. A publish lands during its call, at any later time, or never, whatever its answer. The latest tag is whatever each observation reports.
- WriteOnce: no process outside the protocol touches the destination or the temporary files, and a temporary path never equals the destination. Uniqueness of temporary names is not needed. The cleanup is one step that succeeds or fails.
- GenerationGuard: a source that neither commit's file table lists is skipped by `evaluate`; `run` always lists every native source, so the model has no such case. Generations are real numbers.
- GenerationGuard.DecisionSpelledOut: is about commits after bootstrap; for the one bootstrap commit the decision is stated by `Passes`.
- TarSpelling.EveryAcceptableListArises: takes limits that a size field can express (below 8 GiB per entry) and paths that fit a PAX record within the entry limit.
- ToolPairing.IterToolInvocations: the generator is the list a consumer that reads it to the end receives; which session files are read, and in which order, is the caller's.
- Termination of the reader and of every worklist is part of each proof; running time and memory are not modelled.
