# pair: a verified model of the LAN file-exchange server's core

`pair` is a single-binary HTTP server (main.go) for moving files across a local network. Anyone
on the LAN can upload files into the server's working directory. Files named with `-f` (one
file) or `-x` (a comma-separated list) can be downloaded. At start-up the server finds its
LAN address through the default gateway and prints a QR code that points at the right page.

This project models the decision logic of that program in Dafny 4.11:

- **Start-up** (`Startup`, startup.dfy):
  - `-h` shows the help;
  - the `-x` list is parsed;
  - `-f` together with a non-empty `-x` list exits with status 1;
  - the working directory is read and cleaned;
  - the local address is looked up (exit 1 on failure);
  - the QR URL is chosen by priority.
- **`-x` parsing** (`Flags`, flags.dfy): split on ',', trim white space, drop blanks, keep
  first occurrences. It is written as the two loops of the source, each proved against a
  function.
- **Download descriptors** (`Downloads`, downloads.dfy): `getDownloadableFiles` and
  `getFileInfo` over an abstract filesystem.
- **The download list page** (`Listing`, listing.dfy): which rows it shows and which links they
  carry, without the HTML.
- **The download route** (`Route`, route.dfy): the chain of checks of `downloadHandler`, answered
  in the order 405, 400, 400, 403, 403, 404/500, 400, 500, 200. It includes the containment guard
  built from `filepath.Join`, `Clean`, `Rel` and the string test `HasPrefix(rel, "..")`.
- **Links against the route** (`Links`, links.dfy): a list link, or the QR link, is cut at
  its first '?' or '#', goes through net/http's own decoding of the request path and then
  through the handler's second decoding.
- **`formatFileSize`** (`Sizes`, sizes.dfy): the integer choice of divisor and unit letter.
- **The upload handler** (`Uploads`, uploads.dfy): a `Disk` class whose `files` map the handler
  changes part by part, with the chunked copy through one reused 1 MiB `array`.
- **The gateway match** (`Network`, network.dfy): `getLocalIPForGateway`, two nested loops with
  an early return, plus `localIPString`.

Supporting modules:

- `Common`: Option, bytes, int64.
- `Text`: Go's `strings.Split`, `Join`, `TrimPrefix`, `TrimSpace` and `strconv.Itoa`.
- `Escape`: `url.PathEscape` and `url.PathUnescape`, percent-encoding as in section 2.1 of
  RFC 3986.
- `FilePath`: `path/filepath`'s lexical `Clean`, `Join`, `Rel` and `Base` with Plan 9
  normalisation.
- `Files`: the abstract filesystem.

Go strings are byte strings, so a `string` here is a sequence of `char`s that each stand for
one byte. The filesystem is a map from absolute path to an entry, one of:

- `File(content, openable)`;
- `Dir`;
- `Unstatable` (a path whose `os.Stat` fails with an error other than "does not exist").

`os.Getwd`, the discovered gateway, the interface list, the parsed multipart form and every
failure the environment can inject (open, create, read/write) are parameters. The download
route takes two filesystem snapshots: one when the allow-list is built and one when the target
is stat-ed again and opened. The 404/500 answers that only a change between the two can cause
are therefore visible.

## Model

| member | source | states |
|---|---|---|
| Startup.Start | main.go:855-911 | main's start-up steps, with the -x loops and the interface search run as methods, end exactly as LaunchSpec says: help, the three exit-1 cases in their order, or serving |
| Startup.LaunchSpec | main.go:855-911 | main's start-up as a function of the flags and of what the environment answers; characterised by Startup.Start, ConflictExitsFirst, SeparatorsNeverConflict and ServingIsValid |
| Startup.ConflictExitsFirst | main.go:888-891 | -f with a non-empty parsed -x list exits with status 1 (FlagConflict) whatever the working directory and the network would answer: the outcome is the same for any two environments |
| Startup.SeparatorsNeverConflict | main.go:862-891 | an -x made only of commas and spaces never causes the flag-conflict exit, and a server started with it has an empty -x list |
| Startup.ServingIsValid | main.go:888-911 | a server only starts with a config of the cleaned absolute working directory, -f as given and the parsed -x list, which is a valid config (absolute and clean, not both options, no blank entry); it is announced at the dotted text of the address the lookup found |
| Startup.QrUrl | main.go:949-959 | every QR URL starts with "http://" + the local address + ":8080" |
| Startup.QrPriority | main.go:949-959 | the QR URL is the -f download link when -f is set, else the download list when -x configured something, else the upload page |
| Startup.SingleDescriptor | main.go:476-480 | with -f set, the allow-list is exactly one descriptor, whose absPath is the cleaned join of the working directory and the -f text |
| Startup.QrSingleLinkTargetsEntry | main.go:949-952 | for a -f value without '%', '?' and '#' (the -f text goes into the URL unescaped, so only such values survive as path), the QR link's path reaches the handler as itself and the route decides it on exactly the absolute path of the single allow-list descriptor |
| Startup.QrQueryLinkRefused | main.go:949-952 | as written: with -f "a?b" the QR link reaches the handler as "/download/a", which the route refuses with 403 as not allow-listed whatever the filesystem holds, while the one descriptor is the path of "a?b" |
| Startup.OtherNameNotAllowed | main.go:756-767 | with -f set, a plain name that resolves elsewhere than the -f path passes the containment test and is refused as not allow-listed |
| Startup.QrUrlEscaped | main.go:952 | corrected QR URL: the -f text escaped as the list escapes its links; it starts with the origin and is QrUrl when -f is unset |
| Startup.QrEscapedLinkTargetsEntry | main.go:949-952 | corrected: for every -f text, the escaped QR link reaches the handler as "/download/" + the -f text, and the single-decoding route decides it on exactly the single descriptor's absolute path |
| Flags.ParseMultiFilePaths | main.go:862-881 | parsing -x as the program does (split, trim loop, de-duplication loop) yields MultiFilePaths of the option text |
| Flags.MultiFilePaths | main.go:862-881 | the parsed -x list as a function of the option text; characterised by Flags.MultiFilePathsMembers, MultiFilePathsNonBlank, MultiFilePathsDistinct and MultiFilePathsFirstOrder |
| Flags.TrimPieces | main.go:864-870 | the first loop yields the trimmed pieces without the blank ones, in order |
| Flags.RemoveDuplicates | main.go:873-881 | the second loop, with its map of seen paths, yields the list without repeats after the first occurrence |
| Flags.Trimmed | main.go:866 | one trimmed piece per piece, in order, each being strings.TrimSpace of its piece |
| Flags.MultiFilePathsNonBlank | main.go:865-870 | the -x list has no empty entry |
| Flags.MultiFilePathsDistinct | main.go:873-881 | the -x list names no path twice |
| Flags.MultiFilePathsMembers | main.go:862-881 | a string is in the -x list exactly when it is non-empty and is the trimmed form of some comma-separated piece |
| Flags.MultiFilePathsFirstOrder | main.go:873-881 | the -x list keeps each path's first occurrence and lists them in the order of those first occurrences |
| Flags.DedupMembers | main.go:873-881 | de-duplication keeps exactly the same set of members |
| Flags.DedupDistinct | main.go:873-881 | de-duplication leaves no two equal entries |
| Flags.DedupKeepsFirstOrder | main.go:873-881 | de-duplication keeps first occurrences in their original order |
| Flags.NonBlankMembers | main.go:867-869 | the kept pieces are exactly the non-empty ones |
| Flags.IndexOf | main.go:876 | the first position holding a string: it holds it and no earlier one does |
| Flags.OnlySeparatorsConfigureNothing | main.go:862-881 | an -x value made only of commas and spaces parses to the empty list |
| Text.Split | main.go:864 | strings.Split with a one-byte separator gives at least one piece and no piece holds the separator |
| Text.SplitJoin | main.go:864 | splitting the join of separator-free pieces gives the pieces back |
| Text.JoinSplit | main.go:864 | joining the pieces of a split with the same separator gives the string back |
| Text.TrimPrefix | main.go:730 | strings.TrimPrefix removes the prefix exactly when the string starts with it and leaves it unchanged otherwise |
| Text.LeadingSpace | main.go:866 | the length of the Unicode white-space rune (in UTF-8) the string starts with, and 0 exactly when none of its first one, two or three bytes encode one |
| Text.TrailingSpace | main.go:866 | the length of the Unicode white-space rune (in UTF-8) the string ends with, and 0 exactly when none of its last one, two or three bytes encode one |
| Text.TrimSpace | main.go:866 | strings.TrimSpace as a function: the leading white-space runes go first, then the trailing ones; what it returns is stated by Text.TrimSpaceShape and Text.TrimSpaceEnds |
| Text.TrimSpaceShape | main.go:866 | strings.TrimSpace returns a slice s[a..b] of its input, and what it cuts off before and after that slice are runs of white-space runes |
| Text.TrimSpaceEnds | main.go:866 | what strings.TrimSpace returns neither starts nor ends with a white-space rune |
| Text.TrimLeftShape | main.go:866 | the left half of strings.TrimSpace cuts off a leading run of white-space runes and leaves none at the front |
| Text.TrimRightShape | main.go:866 | the right half of strings.TrimSpace cuts off a trailing run of white-space runes and leaves none at the end |
| Text.TrimAllSpaces | main.go:866-867 | a piece made only of spaces trims to the empty string |
| Text.Decimal | main.go:468 | the %d text of a count is non-empty and made of decimal digits |
| Text.DecimalRoundTrip | main.go:468 | the %d text of a count reads back as that count |
| Escape.PathEscape | main.go:693 | url.PathEscape never shortens its input |
| Escape.UnescapeEscape | main.go:693 | url.PathUnescape of url.PathEscape of any byte string gives that string back |
| Escape.EscapedHasNoDelimiter | main.go:693-694 | an escaped relative path holds no '/', so a list link has one segment after "/download/", and no '?' or '#', so none of it is read as a query or a fragment |
| Escape.PathUnescape | main.go:737 | decoding never lengthens the input, and a string without '%' decodes to itself |
| Escape.PathUnescapeFails | main.go:737-741 | decoding fails exactly when some '%' is not followed by two hex digits |
| Escape.UnescapePlainPrefix | main.go:737 | a prefix without '%' decodes to itself in front of the decoded rest |
| Escape.UpperHex | main.go:693 | the hex digit PathEscape writes for a nibble decodes back to that nibble |
| FilePath.Clean | main.go:746 | filepath.Clean never gives "", reads back as the same path and keeps absoluteness |
| FilePath.Parse | main.go:746 | the lexical reading of a path is normal (no ".", no inner "..", none under the root) and rooted exactly for absolute paths |
| FilePath.ParseRender | main.go:746 | reading back the string of a normal path gives that path |
| FilePath.CleanIdempotent | main.go:900 | cleaning an already cleaned path changes nothing |
| FilePath.CleanEqual | main.go:746 | two paths clean to the same string exactly when they read as the same path |
| FilePath.JoinPath | main.go:744 | filepath.Join of two elements; characterised by FilePath.JoinOntoRooted, JoinIgnoresLeadingSlash and JoinWithoutDotDotStaysWithin |
| FilePath.Rel | main.go:749 | filepath.Rel; characterised, for the route's test, by FilePath.RelGuard |
| FilePath.Base | main.go:496 | filepath.Base; characterised by FilePath.BaseOfClean and BaseOfElem |
| FilePath.JoinOntoRooted | main.go:744 | joining onto an absolute base continues the normalisation of the base's elements with the pieces of the request path |
| FilePath.JoinIgnoresLeadingSlash | main.go:744 | a leading '/' on the decoded path makes no difference to the join onto the working directory |
| FilePath.JoinWithoutDotDotStaysWithin | main.go:744-746 | a request path without a ".." piece always resolves to the working directory or below it |
| FilePath.RelGuard | main.go:749-750 | the containment test passes exactly when the target is the working directory or lies below it and its first element below it does not start with ".." |
| FilePath.RelGuardWithin | main.go:749-750 | a target that passes the containment test is the working directory or lies below it |
| FilePath.WithinAsString | main.go:749-750 | a target within the working directory is it, or starts with it followed by '/' |
| FilePath.CommonPrefixLen | main.go:749 | the shared leading elements of two paths, maximal |
| FilePath.BaseOfClean | main.go:496 | filepath.Base of a cleaned path is its last element ("/" for the root, "." for the empty path) |
| FilePath.BaseOfElem | main.go:496 | the base name of a single element is that element |
| Downloads.GetDownloadableFiles | main.go:473-490 | the method's appends yield Descriptors of the config and filesystem |
| Downloads.Descriptors | main.go:473-491 | getDownloadableFiles as a function; characterised by Downloads.DescriptorsShape and computed by GetDownloadableFiles |
| Downloads.GetFileInfo | main.go:494-510 | getFileInfo; characterised by Downloads.DescriptorsShape (exists exactly for a file, its size, otherwise 0, the name is the base of absPath) |
| Downloads.DescriptorsShape | main.go:473-510 | -f has priority over -x; one descriptor per configured entry in order; relPath is the entry, absPath is Clean(Join(wd, entry)), fileName is Base(absPath); fileExists exactly when absPath holds a file (not a directory, not a failing stat); size is that file's size, otherwise 0 |
| Downloads.DescribeAllShape | main.go:478-487 | describing a list of entries gives one descriptor per entry, in order |
| Downloads.DescriptorSizes | main.go:505 | on a filesystem whose sizes fit an int64, every descriptor size does |
| Downloads.AbsPathShape | main.go:478 | joining an entry to an absolute working directory and cleaning gives an absolute clean path whose base is its last element, or "/" when it has none |
| Downloads.DescriptorPath | main.go:478-496 | with an absolute working directory a descriptor's absPath is absolute and clean, and its name is the path's last element |
| Listing.DownloadsList | main.go:527-719 | the handler's loop builds ListSpec: 404 off its route, the empty message, or one row per descriptor |
| Listing.ListSpec | main.go:527-719 | the list page as a function; characterised by Listing.ListShows and computed by DownloadsList |
| Listing.ListShows | main.go:529-707 | 404 exactly off GET /downloads; the empty message exactly when nothing is configured; otherwise one row per descriptor in order with its name and size label, enabled exactly when the file exists, and then linked to "/download/" + PathEscape(entry) |
| Listing.RowsShape | main.go:686-707 | one row per descriptor, in order |
| Route.Download | main.go:722-791 | the handler's verdict, computed with its allow-list scan loop, is Decide of the method and path |
| Route.Decide | main.go:722-791 | the handler's chain of checks as a function of the method and r.URL.Path; characterised by Route.ServedOnlyAllowListedFiles, OpenFailedOnlyAllowListed, EscapeForbidden and SameSnapshotNoStatErrors |
| Route.DecideTarget | main.go:749-791 | the checks from the containment test on, for a cleaned target; characterised by Route.SameSnapshotTarget and Links.ListLinksServed |
| Route.GuardPasses | main.go:749-753 | the containment test; characterised by FilePath.RelGuard |
| Route.DecidePlain | main.go:730-741 | a GET of "/download/" + a non-empty text without '%' is decided on that text as it stands |
| Route.TargetOfName | main.go:744-753 | a plain name not starting with ".." resolves to the working directory's path with the name appended, and passes the containment test |
| Route.ScanAllowList | main.go:756-763 | the scan sets the flag exactly when some descriptor names the target and exists |
| Route.ServedOnlyAllowListedFiles | main.go:722-799 | a download is served only for a GET whose decoded path resolves within the working directory, passes the ".." test, is named by an existing allow-list entry and is an openable file at the second stat; the response carries that file's name, size and bytes |
| Route.OpenFailedOnlyAllowListed | main.go:722-789 | the open failure (500) happens only for a GET whose decoded path passes the containment test, is named by an existing allow-list entry, and is a file at the second stat that cannot be opened |
| Route.EscapeForbidden | main.go:744-753 | every decoded path that resolves outside the working directory is refused with 403 |
| Route.DotDotNamedChildForbidden | main.go:750 | a child whose name merely starts with "..", like "..hidden", lies inside the working directory and is still refused with 403 |
| Route.WorkDirItselfRefused | main.go:749-767 | the guard lets the working directory itself through, and the allow-list then refuses it unless it held a file |
| Route.AbsoluteRequestStaysRelative | main.go:744 | a decoded path with a leading '/' is decided like the same path without it |
| Route.OutsideEntriesNeverServed | main.go:744-767 | an allow-list whose existing entries all resolve outside the working directory (as with -x ../secret) serves nothing |
| Route.SameSnapshotNoStatErrors | main.go:756-784 | with no change to the filesystem between the allow-list and the second stat, the 404, the failing-stat 500 and the directory 400 cannot occur |
| Route.SameSnapshotTarget | main.go:756-784 | deciding a target against the same snapshot it was allow-listed from never yields the 404, the failing-stat 500 or the directory 400 |
| Route.AllowedIsFile | main.go:756-763 | an allow-listed target held a file when the allow-list was built |
| Links.LinkArrives | main.go:693-694 | a list link reaches the handler, after net/http's decoding, as "/download/" + the relative path |
| Links.LinkPath | main.go:952 | the path part of a link: the longest prefix before the first '?' or '#', holding neither |
| Links.ServerPath | main.go:730 | the r.URL.Path net/http gives the handler: the path part, decoded once; characterised by Links.LinkArrives and PlainLinkArrives |
| Links.PlainLinkArrives | main.go:952 | a link of "/download/" + a text without '%' reaches the handler as "/download/" + the part of the text before its first '?' or '#' |
| Links.EscapedLinkIsPath | main.go:693-694 | a list link has no query and no fragment: all of it is path |
| Links.DecideSingleDecode | main.go:722-741 | the route without the second decoding; characterised by Links.ListLinksServed |
| Links.PercentNameLinkRejected | main.go:690-694 | as written: the enabled link of an existing file whose relative path has a '%' not followed by two hex digits is answered 400 |
| Links.PercentNameExample | main.go:737 | "100%.txt" does not decode |
| Links.ListLinksServed | main.go:690-799 | corrected: with a single decoding, every enabled row whose target passes the guard and is openable is served with that file's name, size and bytes |
| Sizes.FormatFileSize | main.go:513-524 | the loop picks Label of the count, and its int64 divisor never overflows |
| Sizes.Label | main.go:513-524 | the divisor and unit letter formatFileSize picks; characterised by Sizes.SmallSizeText, ExponentBound and LabelUnique |
| Sizes.SmallSizeText | main.go:515-517 | a count below 1024, negative ones included, is written "<bytes> B" |
| Sizes.ExponentBound | main.go:518-523 | for 1024 <= bytes within int64 the divisor 1024^(exp+1) does not exceed the count, 1024^(exp+2) does, and exp <= 5 so "KMGTPE"[exp] is in bounds |
| Sizes.LabelUnique | main.go:518-523 | the divisor and unit letter are the one power of 1024 that brackets the count |
| Sizes.LogBounds | main.go:519-522 | the number of divisions brackets the count between consecutive powers of 1024 |
| Sizes.DivideStep | main.go:519-522 | one turn of the loop keeps the quotient bracket and keeps div within the count |
| Uploads.Status | main.go:388-469 | 200 exactly for a batch saved in full, 409 exactly for an existing destination, 405 exactly for a non-POST, 400 exactly for a bad or empty form |
| Uploads.Copied | main.go:441-456 | the copy leaves a prefix of the part's bytes, and reaches EOF exactly when it wrote all of them with no fault on a call that happens |
| Uploads.MkdirAll | main.go:409-413 | os.MkdirAll fails exactly when the working directory exists and is not a directory; a success leaves a directory there and every other path as it was |
| Uploads.Targets | main.go:418-426 | each part is paired with filepath.Join(saveDir, its file name), in order |
| Uploads.Names | main.go:463 | the names of the targets, in order |
| Uploads.Disk.Upload | main.go:388-469 | the handler changes the disk and answers exactly as UploadSpec says |
| Uploads.UploadSpec | main.go:388-469 | the handler as a function of the disk, method and form; characterised by Uploads.UploadSucceedsOnlyWhen, UploadSavesAll, UploadNeverReplaces, UploadFrame and UploadStopsAtPart |
| Uploads.Batch | main.go:416-464 | the loop over the parts as a function; characterised by Uploads.BatchSucceeds, BatchSavedContent, BatchSavedDistinct, BatchFrame and BatchFailure |
| Uploads.SavePart | main.go:418-463 | one part of the loop; characterised by Uploads.SavePartEffect |
| Uploads.Disk.SaveAll | main.go:416-464 | the loop over the parts, with its reused 1 MiB buffer, leaves the disk, saved names and stopping reply of Batch |
| Uploads.Disk.SaveOne | main.go:418-463 | one turn of the loop does what SavePart says |
| Uploads.Disk.CopyPart | main.go:441-456 | the chunked copy writes exactly the bytes Copied gives at the destination and changes nothing else |
| Uploads.ReadChunk | main.go:442 | a read fills the buffer with the next bytes of the part, at most one chunk |
| Uploads.SavePartEffect | main.go:418-463 | one part either stops the batch or is saved with exactly its bytes at a destination that did not stat; no other path and no path that stats changes |
| Uploads.BatchStopped | main.go:418-464 | once a part has stopped the batch, later parts change nothing |
| Uploads.BatchKeepsExisting | main.go:426-431 | no path that stats before the batch is replaced |
| Uploads.BatchFrame | main.go:418-464 | the batch writes no path other than its parts' destinations |
| Uploads.BatchSavedNames | main.go:463 | the saved names are the first file names in order, all of them unless a part stopped the batch |
| Uploads.BatchSavedContent | main.go:426-463 | every saved destination holds exactly its part's bytes and did not stat before |
| Uploads.BatchSavedDistinct | main.go:426-431 | saved parts have pairwise different destinations |
| Uploads.BatchStopIndex | main.go:418-464 | a stopped batch stops at the part right after the saved ones |
| Uploads.BatchExistingDestStops | main.go:426-431 | a part whose destination stats before the batch is never passed |
| Uploads.BatchRepeatedDestStops | main.go:426-431 | two parts with the same destination are never both saved: the batch stops at the second at the latest, and when it reaches the second that part answers 409 naming it (or fails to open) |
| Uploads.RepeatedDestStats | main.go:426-431 | once the batch reaches a part unstopped, the destination of every earlier part exists, so a later part with the same destination finds it there |
| Uploads.BatchSucceeds | main.go:416-464 | a batch that is not stopped saved every part: names in order, exact bytes, none stated before, all different |
| Uploads.BatchFailure | main.go:418-456 | a stopped batch answers with the failure of one part, carrying that part's name, never with success |
| Uploads.BatchStopFrame | main.go:418-464 | a stopped batch writes only the saved parts' destinations and that of the part that stopped it |
| Uploads.UploadRuns | main.go:388-464 | a POST with a non-empty form whose directory can be made runs the batch over its parts |
| Uploads.UploadNeverReplaces | main.go:426-431 | an upload never replaces a path that stats: no file or directory is overwritten |
| Uploads.UploadFrame | main.go:409-464 | an upload changes no path but the working directory and its parts' destinations |
| Uploads.UploadSucceedsOnlyWhen | main.go:388-469 | 200 exactly for a POST whose form parsed with at least one part, whose directory could be made, and whose batch ran to the end |
| Uploads.UploadSavesAll | main.go:416-469 | on 200 the reply lists the file names in upload order, and each destination holds exactly its part's bytes, did not stat before and is unique |
| Uploads.UploadStopsAtPart | main.go:418-456 | when a part stops the upload, the reply names that part and every part before it is saved with its bytes |
| Uploads.UploadStopsBeforeLaterParts | main.go:418-464 | nothing past the part that stops the upload is written |
| Uploads.UploadExistingDestination | main.go:426-431 | a part whose destination stats is never saved; with every earlier part saved and itself openable, the answer is 409 naming it |
| Uploads.UploadRepeatedName | main.go:426-431 | two parts whose names join to the same path are never both saved: the upload fails at the second one at the latest, and when it gets there with the earlier parts saved and the second part opened, the answer is 409 naming the second part |
| Network.GetLocalIPForGateway | main.go:68-107 | the nested loops with their early return give LookupSpec of the gateway and interface list |
| Network.LookupSpec | main.go:68-107 | getLocalIPForGateway as a function; characterised by Network.LookupIsFirstMatch and FoundIsIPv4 |
| Network.LocalIPString | main.go:45-65 | localIPString as a function of the gateway and the interfaces; characterised by Network.LocalIPText |
| Network.ScanAddrs | main.go:87-103 | the inner loop finds an address exactly when one of the interface's addresses qualifies, and returns the To4 form of the first one |
| Network.AddrSearch | main.go:87-103 | the first qualifying address position, with none before it; none when none qualifies |
| Network.IfaceSearch | main.go:74-104 | the first qualifying (interface, address) position in interface-then-address order, with none before it; none when none qualifies |
| Network.LookupIsFirstMatch | main.go:68-107 | an error only from net.Interfaces or when no address qualifies; otherwise the To4 form of the first address, in interface-then-address order, of an up, listed interface that is IPv4, global unicast, not loopback and whose network contains the gateway |
| Network.FoundIsIPv4 | main.go:94-97 | the address found is a 4-byte, global-unicast, non-loopback one |
| Network.LocalIPText | main.go:45-66 | localIPString succeeds exactly when the gateway is known and the lookup finds an address, and its text splits at dots into the four bytes' decimal texts |
| Network.LoopbackTestRedundant | main.go:95 | the loopback test after IsGlobalUnicast never rejects anything |
| Network.ContainsIPv4 | main.go:100 | for an IPv4 network, containment is (ip & mask) == (gw & mask) on every byte |
| Network.Contains | main.go:100 | net.IPNet.Contains; characterised by Network.ContainsIPv4, ContainsMapped and IPv6GatewayNotContained |
| Network.ContainsMapped | main.go:100 | a gateway in IPv4-mapped 16-byte form is contained exactly when its 4-byte form is |
| Network.IPv6GatewayNotContained | main.go:100 | an IPv4 network never contains a true IPv6 gateway |
| Network.To4 | main.go:94 | net.IP.To4 keeps a 4-byte address, takes the last 4 bytes of a mapped one, and rejects other lengths |
| Network.NetworkNumberAndMask | main.go:100 | the network number and mask have equal lengths of 0, 4 or 16 |
| Network.DottedRoundTrip | main.go:65 | the dotted text of an address splits at its dots into four decimal texts that read back as its bytes |

## Left out

- HTTP plumbing is not modelled: ListenAndServe, route registration, headers, the Flusher, the
  streaming loop that writes a served file, and errors while writing the response. A served
  download is a `Serve` verdict carrying the file's name, size and bytes.
- ServeMux's redirect of unclean request paths is not modelled. The route sees the path that
  reaches the handler.
- A client's handling of a link is modelled only as taking the part before the first '?' or '#'
  as the path (`Links.LinkPath`). Other client behaviour, such as a scanner app escaping spaces
  or other bytes in a URL before sending it, is not modelled.
- Startup.QrUrl: follows the code, so the -f text goes into the URL unescaped. The escaped URL
  `Startup.QrUrlEscaped` is the corrected form of the finding below and is not what
  `Startup.Start` announces.
- The embedded HTML, CSS and JavaScript (the upload page, the list page markup), `printHelp`
  and every console message are not modelled.
- The "%.1f" float division of `formatFileSize` is not modelled. `Sizes.Label` keeps the count,
  the divisor and the unit letter.
- QR rendering by qrterminal and the goroutine that runs it are left out. Only the chosen URL
  is modelled.
- Flag parsing by the `flag` package (including its own errors) is left out. Start-up takes the
  parsed `-h`, `-f` and `-x` values.
- `gateway.DiscoverGateway`, `net.Interfaces` and `iface.Addrs` are inputs. Their failures
  appear as `None`.
- Multipart parsing, including its limits and the file name sanitisation of `mime/multipart`,
  is left out. The form is given as a list of parts, or `None` when parsing fails.
- Concurrency is left out, including the race between the existence check and `os.Create` of
  two uploads of the same name. Each handler call is sequential.
- Uploads.MkdirAll: only the working directory itself is created. Missing parent directories
  and the permission bits are not modelled.
- Uploads.SavePart: the chmod to 0644 after a copy is not modelled, since its failure is only
  printed. A new file is always openable.
- Uploads.SavePart: a destination whose stat fails with an error other than "does not exist"
  is replaced when the create succeeds. The model follows the code here, which only refuses a
  destination that stats.
- Uploads.Disk.CopyPart: every read is assumed to return a full chunk, or the rest of the part.
  Short reads are not modelled. A write error and a read error are one fault, `CopyFault(call)`.
- Uploads.Disk.Upload: the deferred Close calls are not modelled.
- Uploads.SuccessText: the 200 body is defined from the saved names. No property is proved about
  its text beyond the list of names it is built from (Uploads.UploadSavesAll).
- Error message texts are not modelled. Replies and verdicts keep the file name where a message
  names it.
- The download list and the route are modelled on a filesystem the caller gives. Paths of
  symbolic links are not resolved, which matches the lexical checks of the source.

## Findings

| source | as written | input that shows it | evidently intended | confidence | as-written member | corrected member |
|---|---|---|---|---|---|---|
| main.go:737-741 with main.go:690-694 | the list link escapes the relative path once, net/http decodes the request path once into r.URL.Path, and the handler then decodes it a second time | an -x entry "100%.txt" naming an existing file: its link "/download/100%25.txt" arrives as "/download/100%.txt", and the second decoding of "100%.txt" fails, so the answer is 400 | every enabled link of the list downloads its file | not executed | Links.PercentNameLinkRejected | Links.ListLinksServed |
| main.go:949-952 | the QR URL appends the -f text to "/download/" without escaping it | -f "a?b" naming an existing file: a client sends only "/download/a" as the path ("?b" is the query), and the route refuses it with 403 as not allow-listed | the QR code downloads the -f file | not executed | Startup.QrQueryLinkRefused | Startup.QrEscapedLinkTargetsEntry |
