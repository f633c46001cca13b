# dedupgo core in Dafny

This project models the core of dedupgo, a duplicate-file finder written in Go. It covers three files:

- the scan-and-group engine of `internal/core/scanner.go`. It walks directory trees, keeps the regular files that are large enough and match no exclusion pattern, hashes them, groups paths by hash and sums up the result;
- the size parser and formatter of `internal/utils/size.go`;
- the helpers of `internal/utils/fileutil/fileutil.go`: moving a file to the trash, picking a free name in the Linux trash directory, classifying a file by MIME type, and a second copy of the size functions.

The program's environment becomes inputs of the model:

- each root's walk is the sequence of items `filepath.Walk` passes to its callback;
- `digest` stands for MD5 or SHA-256;
- `matcher` stands for `filepath.Match`;
- `parseFloat` is `strconv.ParseFloat`, as a partial function to reals;
- `order` is the order a `range` over the unit map happens to take, any permutation of the five entries;
- `detect` is `http.DetectContentType`;
- other inputs are the user's home directory, the results of `MkdirAll` and `Rename`, and, for the trash-name loop, the set of names for which `os.Stat` reports anything other than "not exist" (a name that exists, or a name whose `Stat` fails with another error).

The files are:

- `wrappers.dfy`: `Option`, `Result`, bytes and the int64 range;
- `text.dfy`: the parts of Go's `strings` and `path/filepath` used by the core;
- `scanner.dfy`: module `Core`;
- `size.dfy`: module `Utils`;
- `fileutil.dfy`: module `FileUtil`.

Two behaviours of the code are stated as lemmas:
- Exclusion patterns are tried only on the base names of regular files. No directory is ever skipped, so a pattern such as ".git" does not exclude the files inside a `.git` directory (Core.DirectoryPatternKeepsItsFiles).
- A file shorter than 512 bytes is sniffed with zero padding, so a detector that reads a zero byte as binary files a short text file under "other" (FileUtil.ShortFileSniffedAsBinary).

`Scan` is a method with the walk loop and the final loop over the map. It is proved equal to a functional specification: `Group` builds the map and `Summary` builds the result. The lemmas are stated about those two functions. The hashing goroutines are modelled one after the other. The order-independence lemmas show what does not depend on the order in which they finish: the multiset of records in every group, the set of hashes, the set of duplicate hashes and TotalFiles. TotalSize and SavedSize are order-independent when the files of each group have one size. The order of the paths inside a reported group is the append order, which does depend on it.

## Model

| member | source | states |
|---|---|---|
| Core.NewScanner | internal/core/scanner.go:43-51 | the scanner keeps the four arguments it is given, and its concurrency bound is 5 |
| Core.GetHasher | internal/core/scanner.go:54-61 | SHA-256 is chosen exactly when the name is "sha256"; every other name, including an empty or unknown one, gives MD5 |
| Core.Fingerprint | internal/core/scanner.go:64-77 | hashing fails exactly when the file cannot be opened or read; otherwise the fingerprint is the digest of its contents under the configured algorithm |
| Core.IsExcluded | internal/core/scanner.go:97-101 | an entry is excluded if and only if some pattern matches its base name; a malformed pattern counts as no match |
| Core.FiledUnder | internal/core/scanner.go:92-116 | an item is appended somewhere only if it is a visited regular file that is at least the minimum size, is not excluded and can be read; its key is then the digest of its contents under the configured algorithm |
| Core.Record | internal/core/scanner.go:115 | appending a record under key h adds h to the keys, appends to h's list only, and leaves every other list as it was |
| Core.Group | internal/core/scanner.go:86-127 | no key of the finished map has an empty list |
| Core.GroupIsMembers | internal/core/scanner.go:86-127 | a key is in the map exactly when some item was filed under it, and its list is the items filed under it, in walk order |
| Core.MembersAppend | internal/core/scanner.go:86-125 | the records filed under a key from two walks run one after the other are those of the first walk followed by those of the second |
| Core.MembersContain | internal/core/scanner.go:104-116 | a record is in a key's list if and only if some walk item at some position was filed under that key with that record |
| Core.GroupMembership | internal/core/scanner.go:87-120 | both directions: a path and size are in the group for h exactly when some walk item is a regular file of at least the minimum size, with no matching exclusion pattern, with readable content whose digest is h |
| Core.AcceptedIsFiled | internal/core/scanner.go:92-116 | the explicit filter conditions of the callback are equivalent to being filed under h |
| Core.DirectoryPatternKeepsItsFiles | internal/core/scanner.go:92-101 | with the single pattern ".git", the regular file /r/.git/config is still grouped: patterns see only base names, and no directory is skipped |
| Core.EligibleEntryIsGrouped | internal/core/scanner.go:92-116 | a readable regular file of at least the minimum size that no pattern matches appears in the group of its own digest |
| Core.SameContentSameGroup | internal/core/scanner.go:109-116 | two accepted files with the same contents end up in the same group |
| Core.UnfiledItemIgnored | internal/core/scanner.go:92-112 | an item that is skipped leaves the map unchanged: a directory, a small file, an excluded file or one whose hashing fails |
| Core.GroupMembersOrderIndependent | internal/core/scanner.go:103-117 | for every key, the multiset of records in its group is the same for every permutation of the items, whatever order the goroutines take the mutex in |
| Core.GroupKeysOrderIndependent | internal/core/scanner.go:103-117 | the set of hashes with a group does not depend on the processing order |
| Core.GroupIgnoresFileTypesAndConcurrency | internal/core/scanner.go:84-117 | the grouping does not depend on the FileTypes field or on the concurrency bound |
| Core.SizesOrderIndependent | internal/core/scanner.go:129-143 | TotalSize and SavedSize are the same for every processing order, provided all files of each group have one size |
| Core.SameFigures | internal/core/scanner.go:137-142 | two orderings of the same records of one size give the same group bytes and saved bytes |
| Core.FirstSizeCounts | internal/core/scanner.go:137-142 | a group's size is that of its first file: records of 5 and 7 bytes under one key total 10 in one order and 14 in the other |
| Core.PairGroup | internal/core/scanner.go:115 | two items filed under one key form a single group holding both, in walk order |
| Core.Paths | internal/core/scanner.go:136 | the reported list of a group holds the paths of its records, position by position |
| Core.RepresentativeSize | internal/core/scanner.go:137-142 | the size a group is counted with is that of its first file (a definition; no contract of its own) |
| Core.Summary | internal/core/scanner.go:129-143 | the result of the final loop: the groups of two or more files, the file count, the bytes once per file and the bytes saved by keeping one copy (a definition; its properties are the lemmas in the rows around it) |
| Core.TotalFilesCountsFiled | internal/core/scanner.go:140 | TotalFiles equals the number of walk items that were hashed and appended |
| Core.TotalFilesOrderIndependent | internal/core/scanner.go:129-143 | TotalFiles and the set of duplicate hashes are the same for every processing order |
| Core.SavedAtMostTotal | internal/core/scanner.go:134-143 | when sizes are non-negative, 0 <= SavedSize <= TotalSize |
| Core.GroupSavingBounds | internal/core/scanner.go:135-142 | in each group, the bytes saved by keeping one copy are between 0 and the group's bytes |
| Core.GroupedSizesAtLeastMin | internal/core/scanner.go:92-94 | the representative size of every group is at least MinSize |
| Core.EmptyScan | internal/core/scanner.go:129-145 | a walk with no items reports no groups and zero totals |
| Core.ScenarioGroups | internal/core/scanner.go:86-127 | two 5-byte copies and one distinct 3-byte file give two groups with these exact lists |
| Core.FiledWithoutPatterns | internal/core/scanner.go:92-116 | with no patterns, a readable regular file of at least the minimum size is filed under its digest |
| Core.GroupOfThree | internal/core/scanner.go:115 | three filed items, two of them with the same key, give exactly two lists, in walk order |
| Core.GroupSnoc | internal/core/scanner.go:104-117 | one more walk item either leaves the map as it was or appends its record under its key |
| Core.TwoCopiesAndOneOther | internal/core/scanner.go:129-143 | for the same walk, TotalFiles is 3, TotalSize is 13 and SavedSize is 5, and the only duplicate group holds the two copies |
| Core.SummaryOfTwoGroups | internal/core/scanner.go:134-143 | the final loop applied to those two lists gives those totals |
| Core.Flatten | internal/core/scanner.go:86-125 | the items of all roots, root after root (a definition) |
| Core.FirstError | internal/core/scanner.go:88-90 | the message of the first walk error, which the callback returns and Walk passes back (properties in Core.FirstErrorIsFirst) |
| Core.FirstErrorIsFirst | internal/core/scanner.go:88-90 | there is no error exactly when no item is a walk error; otherwise the error is that of some item with no error item before it |
| Core.FlattenAppend | internal/core/scanner.go:86-125 | walking roots a and then roots b yields a's items followed by b's |
| Core.FirstErrorAppend | internal/core/scanner.go:88-90 | the first error of two walks run one after the other is the first walk's error if it has one, otherwise the second's |
| Core.ErrorStopsScan | internal/core/scanner.go:88-90 | the error the scan reports is the first walk error met, counting every earlier root and every earlier item of the same root |
| Core.FlattenSplit | internal/core/scanner.go:86 | the items of the roots split around any one root |
| Core.Scan | internal/core/scanner.go:80-146 | the first walk error, if any, is returned as the failure; otherwise the result is the summary of the grouped walk |
| Core.VisitEntry | internal/core/scanner.go:92-117 | a visited entry either leaves the map alone or appends its record under its digest, as the filter decides |
| Core.Finalise | internal/core/scanner.go:129-143 | the final loop over the map, in any key order, builds the duplicate groups of two or more files, the file count, the bytes counted once per file, and the bytes that removing all but one copy would save |
| Core.RelocationCandidates | cmd/dedupgo/main.go:109-120 | the first path is kept; the candidates are the rest, in order, and with the kept one they make up the group |
| Core.DuplicateGroupsHaveCandidates | cmd/dedupgo/main.go:109-120 | every reported group has at least two files, so at least one file is to be removed, and the candidates are exactly the paths after the first |
| Core.TrashCommandFor | internal/core/scanner.go:148-173 | osascript exactly when GOOS starts with "darwin", PowerShell exactly for "windows", gio exactly for "linux", and an error naming every other GOOS |
| Utils.Normalize | internal/utils/size.go:11 | the input upper-cased and trimmed of surrounding white space (properties in Utils.NormalizeShape) |
| Utils.NormalizeShape | internal/utils/size.go:11 | the normalised text neither starts nor ends with white space and contains no lower-case letter |
| Utils.IsMapOrder | internal/utils/size.go:16-26 | the orders a range over the five-entry map may take: each entry exactly once, in any order (a definition) |
| Utils.Truncate | internal/utils/size.go:34 | int64() conversion rounds toward zero: the result is within one of x, on x's side of zero |
| Utils.ProductIsMultiplication | internal/utils/size.go:34 | the scaled value is value × multiplier |
| Utils.FirstSuffixMatch | internal/utils/size.go:26-36 | the index found is the first entry of the order that the text ends with; none is found exactly when no entry matches |
| Utils.FindSuffix | internal/utils/size.go:26-27 | the search loop finds the first matching entry of the iteration order |
| Utils.FirstSuffixMatchIsFirst | internal/utils/size.go:26-27 | a matching entry with no match before it is the one the search returns |
| Utils.ReadScaled | internal/utils/size.go:28-34 | for text ending in the unit: the call fails exactly when the text in front of the suffix is not a number, and the error names the whole text; otherwise the value is that number times the multiplier (Product, which Utils.ProductIsMultiplication shows is multiplication), truncated |
| Utils.ReadPlain | internal/utils/size.go:38-43 | the call fails exactly when the whole text is not a number, and the error names the text; otherwise the value is within one of that number, on its side of zero |
| Utils.ScaledReading | internal/utils/size.go:27-34 | any result with the failure condition, error and value of the unit branch is the parser's unit-branch result |
| Utils.PlainReading | internal/utils/size.go:38-43 | any result with the failure condition, error and rounding of the plain branch is the parser's plain-bytes result |
| Utils.TruncateUnique | internal/utils/size.go:34 | only one integer lies within one of x on x's side of zero, so the rounding bracket fixes the int64 conversion |
| Utils.ParseSize | internal/utils/size.go:10-44 | "" and "0" give 0 after normalising; otherwise the result is the specification under the given map iteration order |
| Utils.ParseSizeIgnoresCaseAndPadding | internal/utils/size.go:11 | leading and trailing white space and letter case do not change the result |
| Utils.SuffixesEndWithB | internal/utils/size.go:16-22 | every unit suffix ends in 'B', so it can only match text ending in 'B' |
| Utils.NoUnitMeansBytes | internal/utils/size.go:38-43 | text that does not end in 'B' is read as plain bytes, whatever the iteration order |
| Utils.NoSuffixNoMatch | internal/utils/size.go:26-36 | text that does not end in 'B' matches no unit in any order |
| Utils.MatchEndingInB | internal/utils/size.go:26-35 | text ending in 'B' always matches some unit of the table, in every order, because "B" itself is an entry |
| Utils.SpecWithoutUnit | internal/utils/size.go:38-43 | when no unit matches, the result is the plain-bytes reading |
| Utils.SpecWithUnit | internal/utils/size.go:27-34 | when unit u is the first match, the result is the scaled reading with u |
| Utils.SampleOrders | internal/utils/size.go:16-26 | both sample orders are permutations of the table, so a map range may take either; both are rotations of the order the table is written in, one starting at "B" and one at "MB" |
| Utils.SuffixOrderMatters | internal/utils/size.go:26-35 | "10MB" fails when the range visits "B" first and gives 10485760 when it visits "MB" first |
| Utils.BFirstRejects | internal/utils/size.go:27-32 | with "B" first, "10MB" is cut to "10M", which does not parse, so the call fails |
| Utils.MBFirstAccepts | internal/utils/size.go:27-34 | with "MB" first, "10MB" gives 10 × 1024 × 1024 bytes |
| Utils.FirstEntryDecides | internal/utils/size.go:26-35 | when the first entry of the order matches, it alone decides the result |
| Utils.LongestFirstSearch | internal/utils/size.go:16-36 | the corrected search, which puts "B" last, always finds the intended unit |
| Utils.BLastFindsIntendedUnit | internal/utils/size.go:26-36 | any iteration order with "B" last finds the intended unit |
| Utils.TwoLetterSuffixesExclusive | internal/utils/size.go:16-22 | no text ends with two different two-letter units |
| Utils.IntendedUnitOfNumeral | internal/utils/size.go:16-22 | a numeral followed by any unit suffix has that unit as its intended unit |
| Utils.ParseSizeLongestCorrect | internal/utils/size.go:10-44 | the corrected parser reads a numeral followed by any unit as the numeral × multiplier, truncated, and fails exactly when the numeral does not parse |
| Utils.AgreesWhenBLast | internal/utils/size.go:26-36 | the source's parser and the corrected one agree on every input whenever the map happens to iterate "B" last |
| Utils.UnitExponent | internal/utils/size.go:52-56 | the exponent the loop reaches is the e with 1024^(e+1) <= bytes < 1024^(e+2) |
| Utils.UnitExponentUnique | internal/utils/size.go:52-56 | that exponent is the only one bracketing the value |
| Utils.UnitExponentInRange | internal/utils/size.go:57-58 | for every int64, the exponent stays within "KMGTPE", so the index never goes out of range |
| Utils.Humanize | internal/utils/size.go:47-59 | below 1024, and for every negative count, the count is shown in bytes; otherwise divisor <= bytes < 1024 × divisor, where the divisor is a power of 1024 and the letter is the matching one of "KMGTPE" |
| Utils.HumanizeLetterDecidesDivisor | internal/utils/size.go:57-58 | two formatted sizes share a unit letter if and only if they share a divisor |
| Utils.FormatSize | internal/utils/size.go:47-59 | the loop computes the specified divisor and letter |
| FileUtil.TrashRouteFor | internal/utils/fileutil/fileutil.go:15-24 | Finder exactly for GOOS "darwin", the recycle bin exactly for "windows", the home trash directory for every other system |
| FileUtil.RoutesAgainstScanner | internal/utils/fileutil/fileutil.go:15-24 | compared with the scanner's MoveToTrash: both use PowerShell on exactly the same systems, plain "darwin" goes to osascript in both, and where the scanner uses gio this file uses the home directory |
| FileUtil.RoutesDiffer | internal/utils/fileutil/fileutil.go:15-24 | the two MoveToTrash functions differ: "freebsd" has a route here but is unsupported in the scanner, and so are "android" and "ios", which the scanner rejects and this file sends to the home trash |
| FileUtil.Stem | internal/utils/fileutil/fileutil.go:64-65 | the base name without its extension, followed by the extension, gives back the name |
| FileUtil.Candidate | internal/utils/fileutil/fileutil.go:60-66 | the name tried after i collisions (properties in the rows below) |
| FileUtil.CandidateRenames | internal/utils/fileutil/fileutil.go:57-66 | only the first attempt uses the file's own name; every later one differs from it |
| FileUtil.UniqueTrashName | internal/utils/fileutil/fileutil.go:56-67 | the loop stops at the first free candidate: name, then stem_1.ext, stem_2.ext, and so on; every earlier candidate is taken |
| FileUtil.CandidatesCount | internal/utils/fileutil/fileutil.go:60-67 | the first n candidates are n distinct names, which bounds the loop by the number of names already present |
| FileUtil.CandidateInjective | internal/utils/fileutil/fileutil.go:64-66 | different attempts give different names |
| FileUtil.FirstFreeUnique | internal/utils/fileutil/fileutil.go:60-67 | the name chosen is determined by the names present |
| FileUtil.CandidateShape | internal/utils/fileutil/fileutil.go:64-66 | a renamed candidate starts with stem_i and is one character plus the digits of i longer than the name |
| FileUtil.CandidateKeepsExtension | internal/utils/fileutil/fileutil.go:64-66 | every candidate keeps the file's extension |
| FileUtil.TrashNameExample | internal/utils/fileutil/fileutil.go:56-67 | with "a.txt" and "a_1.txt" taken, the file goes in as "a_2.txt" |
| FileUtil.LongNameNeverStops | internal/utils/fileutil/fileutil.go:60-67 | when `Stat` fails for every name longer than 255 bytes, and a base name of 254 bytes or more is already in the trash, the loop stops at no candidate |
| FileUtil.UniqueTrashNameChecked | internal/utils/fileutil/fileutil.go:60-67 | the corrected loop always ends. It returns the first free candidate, with every earlier one present and none failing `Stat`, or the first `Stat` error other than "not exist". It succeeds whenever `Stat` reports no such error, and fails for the too-long name above |
| FileUtil.TrashDir | internal/utils/fileutil/fileutil.go:50 | the trash directory under the home directory (a definition) |
| FileUtil.MoveToTrashLinux | internal/utils/fileutil/fileutil.go:43-70 | errors from reading the home directory, then from MkdirAll, then from Rename are returned in that order; otherwise the file moves to home/.local/share/Trash/files/ under the first free candidate name |
| FileUtil.SniffBuffer | internal/utils/fileutil/fileutil.go:81-82 | the sniffed buffer is 512 bytes: the start of the file, padded with zeros |
| FileUtil.MimeCategory | internal/utils/fileutil/fileutil.go:91-108 | the switch on the MIME type always yields one of image, video, audio, text, pdf, archive and other |
| FileUtil.TableCategory | internal/utils/fileutil/fileutil.go:91-108 | the category is the one given by the first matching MIME prefix of the table, and "other" if and only if no prefix matches |
| FileUtil.MimeCategoryIsTable | internal/utils/fileutil/fileutil.go:91-108 | the switch, case by case, is the first-match lookup in the prefix table |
| FileUtil.ShortFileSniffedAsBinary | internal/utils/fileutil/fileutil.go:81-88 | a file of 1 to 511 bytes reaches the detector with zero padding; if the detector reads a zero byte as binary, the category is "other" |
| FileUtil.OctetStreamIsOther | internal/utils/fileutil/fileutil.go:91-108 | the generic binary type matches none of the switch's cases |
| FileUtil.GetFileType | internal/utils/fileutil/fileutil.go:73-109 | an open error is returned unchanged; an empty file gives the read error EOF; otherwise the category of the sniffed first 512 bytes |
| FileUtil.FormatFileSize | internal/utils/fileutil/fileutil.go:112-123 | it formats exactly as Utils.FormatSize does |
| FileUtil.ParseFileSize | internal/utils/fileutil/fileutil.go:126-157 | it parses exactly as Utils.ParseSize does, for every order and number reader |
| FileUtil.UnitLoop | internal/utils/fileutil/fileutil.go:140-156 | its range loop and plain-bytes fallback compute the normalised-text specification of the size parser |

## Left out

- The file system: `filepath.Walk`, `os.Open`, `io.Copy` and `os.Stat` are replaced by the walk items and their optional contents. A walk error for an unreadable subtree is an item like any other: the callback returns it, so it aborts the scan.
- Finalise: the source reads each group's size again with `os.Stat(files[0])` and ignores the error. If that file has vanished, `Stat` returns a nil FileInfo and the call to `Size()` on it panics. The model uses the size recorded when the walk saw the file. It says nothing about a file that changes or vanishes between the walk and the end of the scan.
- Concurrency: the goroutine per file, the semaphore bounding hashing to five files in flight, the mutex and `wg.Wait` are not modelled as interleavings. What any finishing order does is covered by the order-independence lemmas, within the limits stated above the table: the sizes are covered only for groups whose files have one size, and the order of paths inside a group is not covered. The model does not capture that, when a walk error returns early, goroutines of earlier files may still be running.
- MD5, SHA-256 and the hex encoding: these become the `digest` parameter. Two different contents may share a digest unless the caller rules it out.
- `filepath.Match`: this becomes the `matcher` parameter, whose answers are matched, no match, or a malformed pattern.
- `strconv.ParseFloat`: this becomes `parseFloat`, and float64 rounding is not modelled. Value × multiplier is exact real arithmetic, and the int64 conversion just rounds toward zero, leaving out results beyond the int64 range. `parseFloat` has no NaN or infinite results. `strconv.ParseFloat` accepts "NAN", "INF" and "INFINITY", also in front of a "B" suffix, and converting those to int64 is implementation-defined in Go.
- Sums: TotalFiles, TotalSize and SavedSize are unbounded integers, so int64 overflow of these sums is not modelled.
- Rendering: the `%d B` and `%.1f %cB` text is not modelled. Utils.Humanize returns the count, or the bytes, divisor and unit letter the format shows.
- Text: case mapping is ASCII only, and white space follows `unicode.IsSpace` for the characters it lists. `/` is the only path separator. `filepath.Join` is concatenation with `/`, so nothing is cleaned. This applies to an unclean home path and to a base name of "." or "..", which Join would resolve.
- External commands: osascript, powershell and gio are not run. Only which one is chosen is modelled, as FileUtil.TrashRouteFor and Core.TrashCommandFor.
- GetFileType: `http.DetectContentType` is the `detect` parameter. A read that returns fewer bytes than the file holds is not modelled: the buffer holds the file's first 512 bytes.
- FileUtil.UniqueTrashName: the model takes the taken names as a finite set, so the loop always ends. The Go loop counts every `Stat` error other than "not exist" as a taken name, so it can run forever in two ways. One is a base name of 254 bytes or more that is already in the trash: every renamed candidate is over 255 bytes and fails with ENAMETOOLONG. The other is a trash directory without search permission, where every `Stat` fails with EACCES. FileUtil.MoveToTrashLinux uses this finite-set loop. The finding below covers the infinite case with FileUtil.LongNameNeverStops, and the corrected loop is FileUtil.UniqueTrashNameChecked.
- Configuration loading, the command-line front end and the GUI are not part of this model. The exception is the keep-first rule of the text report, as Core.RelocationCandidates.
- The FileTypes field: `NewScanner` stores it but `Scan` never reads it. The model shows it is ignored (Core.GroupIgnoresFileTypesAndConcurrency) rather than implementing a filter the code does not have.
- Symbolic links: a symbolic link is not a regular file, and `filepath.Walk` does not follow it, so it is skipped like any other non-regular entry.

## Findings

| source | as written | input that shows it | evidently intended | confidence | as-written member | corrected member |
|---|---|---|---|---|---|---|
| internal/utils/size.go:26-35 (same code in internal/utils/fileutil/fileutil.go:140-149) | the suffixes are tried in Go map iteration order, which is unspecified; when "B" comes before "MB", "10MB" is cut to "10M", which does not parse, and the call fails | ParseSize("10MB") when the range visits "B" first | try the two-letter units before "B", so "10MB" is 10485760 bytes in every run | not executed | Utils.SuffixOrderMatters | Utils.ParseSizeLongestCorrect |
| internal/utils/fileutil/fileutil.go:60-67 | only `os.IsNotExist` ends the loop, so any other `Stat` error counts the name as taken and the loop tries the next candidate for ever | trashing a file whose base name is 254 bytes long while that name is already in the trash: every `stem_i.ext` is over 255 bytes and `Stat` fails with ENAMETOOLONG | return the `Stat` error when it is not "not exist" | not executed | FileUtil.LongNameNeverStops | FileUtil.UniqueTrashNameChecked |
