# libudev device scanner, modelled in Dafny

This project models the device scanner of the Go library `qubesome/libudev`
(`scanner.go`). The scanner walks the sysfs devices tree. Every directory
holding a `uevent` file becomes a `Device`. The device is filled from
three places:

- `Attrs`: the trimmed contents of the sibling files of `uevent`, except
  `uevent`, `descriptors` and directories;
- `Env`: the `KEY=VALUE` lines of the `uevent` file;
- `Env`, `Tags` and `UsecInitialized`: the `E:`, `G:` and `I:` lines of the
  udev database record `c<major:minor>`, where `<major:minor>` is the
  trimmed content of the `dev` file next to `uevent`.

After the walk, a linking pass gives each device a `Parent` found by
stripping segments off its path, and appends it to that parent's
`Children`. With the corrected search this is the nearest device above it
in the path hierarchy; the source's loop also makes every top-level device
its own parent (see "## Findings").

Files:

- `optional.dfy`: `Option`, for Go's nil pointers, nil errors and `(v, ok)` pairs.
- `strings.dfy`: `strings.Cut`, `strings.Trim` with the cutset `"\n\r\t "`,
  `strings.TrimSuffix`, and the line splitting of `bufio.ScanLines`.
- `paths.dfy`: `strings.Split`/`strings.Join` on `/`, and `filepath.Dir`,
  `filepath.Base` and `filepath.Join` for the clean relative paths a walk yields.
- `filesystem.dfy`: the two roots (devices tree and udev database) as
  values. Each path is absent (stat says "does not exist"), fails at stat,
  fails at open, or has content with or without a later read failure.
  A directory listing is present or fails.
- `device.dfy`: the `Device` class of `types/device.go`.
- `records.dfy`: the uevent line loop and the udev database line loop, as
  folds over the lines, with their last-wins, append-order and
  skip properties.
- `linker.dfy`: the tree-linking pass, over a `map<string, Device>` that
  plays the role of `devicesMap`.
- `scanner.dfy`: `readAttrs`, `readDevFile`, `readUdevInfo`,
  `readUeventFile`, the walk callback and `ScanDevices`.

Each reading operation that updates a device in place is a method. Its
`ensures` ties the new state of the device to a specification function
of the roots and the old state. The properties are proved about those
functions.

Notes on what the code does, which the model follows:

- The code has only one fatal error: `fs.ReadDir` fails on the directory
  of a `uevent` file (scanner.go:82-85 through scanner.go:141-145). That
  error stops the walk and `ScanDevices` returns it with no devices. An
  unreachable root is not fatal in the code. `fs.WalkDir` hands that error
  to the callback, which drops it (scanner.go:67-69), so the scan succeeds
  with no devices.
- scanner.go:82 calls `readAttrs(dir, device)`. The signature at
  scanner.go:141 takes only the path and returns the map. The model does
  what the unused `getDevice` (scanner.go:120-139) does: the returned map
  becomes `device.Attrs`, and a listing error is returned from the callback.
- The content of the `dev` file is not checked to be `major:minor`. It is
  prefixed with `c` as it is. A missing `dev` file leads to the record named
  `"c"`.

## Model

| member | source | states |
|---|---|---|
| `Strings.Cut` | scanner.go:187 | the separator is found iff it occurs; then the input is the part before, the separator and the part after, and the part before has no separator; otherwise the part before is the whole input and the part after is empty |
| `Strings.CutJoin` | scanner.go:279 | a key without the separator, the separator and any value (which may contain the separator) are cut back into exactly that key and value |
| `Strings.TrimLeft` | scanner.go:158 | removes exactly the leading run of `\n`, `\r`, `\t` and space: the result is a suffix of the input that does not start with one of them |
| `Strings.TrimRight` | scanner.go:158 | removes exactly the trailing run of those characters: the result is a prefix of the input that does not end with one of them |
| `Strings.TrimStart` | scanner.go:158 | every character before the start of the kept text is one of `\n`, `\r`, `\t`, space |
| `Strings.Trim` | scanner.go:158 | the result neither starts nor ends with `\n`, `\r`, `\t` or space, is the slice of the input starting at `TrimStart`, and everything cut off on either side is one of those characters |
| `Strings.TrimOfTrimmed` | scanner.go:235 | a string without leading or trailing cutset characters is left unchanged |
| `Strings.TrimIdempotent` | scanner.go:158 | trimming a trimmed value again changes nothing |
| `Strings.TrimSuffix` | scanner.go:105 | when the suffix is there, the result followed by the suffix is the input; otherwise the input is returned unchanged |
| `Strings.TrimSuffixOfAppend` | scanner.go:105 | stripping a suffix that was appended gives back the original string |
| `Strings.DropCR` | scanner.go:186 | a line ending in `\r` is that result followed by one `\r`; any other line is returned as it is |
| `Strings.Lines` | scanner.go:185-186 | no line yielded by the line scanner contains a newline |
| `Strings.LinesUnlines` | scanner.go:185-186 | lines without newline and without a final `\r`, each written out followed by a newline, are read back as exactly those lines, in order |
| `Paths.Split` | scanner.go:101 | a path splits into at least one segment and no segment contains `/` |
| `Paths.JoinAppend` | scanner.go:101 | joining two runs of segments puts exactly one `/` between their joins |
| `Paths.SplitAppend` | scanner.go:101 | the segments of `a/r` are the segments of `a` followed by those of `r` |
| `Paths.JoinSplit` | scanner.go:101 | joining the segments of a path gives the path back |
| `Paths.SplitJoin` | scanner.go:101 | splitting the join of slash-free segments gives the segments back |
| `Paths.AncestorDecompose` | scanner.go:105 | a path with ancestor `a` is `a`, a slash and the rest |
| `Paths.AncestorIsPrefixJoin` | scanner.go:101-105 | every ancestor path is the join of a proper leading run of the segments and is shallower than the path |
| `Paths.PrefixJoinIsAncestor` | scanner.go:101-105 | the join of every proper leading run of segments is an ancestor of the path |
| `Paths.PrefixJoinLonger` | scanner.go:104 | a longer leading run of segments joins to a longer string |
| `Paths.DirOf` | scanner.go:76 | `filepath.Dir` of a top-level path is `.`; below the top level it is the strict ancestor made of all segments but the last |
| `Paths.BaseOf` | scanner.go:71 | `filepath.Base` is the slash-free tail of the path: it is the whole path or starts right after its last `/` |
| `Paths.PathJoinOf` | scanner.go:153 | `filepath.Join` below `.` is the name itself; below any other directory the directory is an ancestor of the result, whose segments are those of the directory followed by those of the name |
| `Paths.DirBase` | scanner.go:76 | every path a walk reports (`io/fs.ValidPath`) is its `filepath.Dir` joined with its `filepath.Base`; below the top level the directory is a strict ancestor |
| `Linker.Candidates` | scanner.go:101-105 | the corrected search looks up one path per segment but the first (depth minus one); the source's loop looks up one more, see `CandidatesAsWritten` under `LookupIsAsWritten` |
| `Linker.CandidatesAreAncestors` | scanner.go:101-105 | the paths the corrected search looks up are exactly the strict ancestors of the device path |
| `Linker.CandidatesNearestFirst` | scanner.go:104 | the candidates are looked up nearest first: each is longer than every later one |
| `Linker.CandidateAt` | scanner.go:104-105 | the candidate after stripping down to `i` segments is the join of the first `i` segments |
| `Linker.StripStep` | scanner.go:105 | one `TrimSuffix(devpath, "/"+parts[i])` turns the join of `i+1` segments into the join of `i`; at the first segment it strips nothing |
| `Linker.FirstIn` | scanner.go:107-111 | the index of the first candidate in the map: all before it are absent and it is present, or none is |
| `Linker.NearestInFirst` | scanner.go:107-111 | the lookup finds the candidate at the first present index |
| `Linker.NearestInSound` | scanner.go:107-111 | a hit is a present candidate; there is no hit exactly when no candidate is present |
| `Linker.NearestInAppend` | scanner.go:104-111 | looking up a concatenation looks at the second part only when the first has no hit |
| `Linker.ParentKeyIsNearestAncestor` | scanner.go:104-111 | with the corrected search, the parent is a device path that is a strict ancestor, and every other ancestor that is a device lies above it; there is no parent exactly when no strict ancestor is a device |
| `Linker.ParentKeyShallower` | scanner.go:104-111 | with the corrected search, the parent's path has fewer segments than the child's |
| `Linker.Ancestry` | scanner.go:100-112 | with the corrected search, following parents from a device ends at a device without parent after at most depth-of-path steps, so the parent links have no cycle |
| `Linker.LookupIsNearest` | scanner.go:104-111 | the stripping loop, run from segment `i` down, finds the first of the stripped paths present in the map |
| `Linker.LookupIsParentKey` | scanner.go:104-111 | the stripping loop that stops before the first segment looks up exactly the candidates |
| `Linker.LookupIsAsWritten` | scanner.go:104-111 | the source's loop looks up the candidates and then the first segment once more |
| `Linker.ParentKeyIsAncestor` | scanner.go:107-108 | with the corrected search, a parent found is a device path and a strict ancestor |
| `Linker.LookupStep` | scanner.go:104-110 | one turn of the loop at segment `i` strips to the `i`-th stripped path and either stops there, when it is a device, or goes on with the lookup below |
| `Linker.SearchStep` | scanner.go:105-110 | the same turn on the path the loop holds: what `TrimSuffix` leaves is the `i`-th stripped path, a hit there ends the lookup, a miss goes on below |
| `Linker.LookupFound` | scanner.go:107-108 | whatever the lookup finds is a key of the device map |
| `Linker.SearchUp` | scanner.go:101-111 | the stripping loop, run down to a given segment, returns the first stripped path that is a device, from the longest down, or none; what it returns is a key of the map |
| `Linker.FindParent` | scanner.go:101-111 | the inner loop with the corrected search (stopping before the first segment) returns the nearest strict ancestor that is a device, or none |
| `Linker.FindParentAsWritten` | scanner.go:101-111 | the inner loop as written returns the first hit among the candidates followed by the first segment |
| `Linker.SelfParentAsWritten` | scanner.go:104-109 | as written, a device whose path has one segment finds itself as parent |
| `Linker.SelfParentExample` | scanner.go:104-109 | as written, the device `pci0000:00` is its own parent |
| `Linker.AsWrittenAgreesWhenNested` | scanner.go:104-111 | for paths of two segments or more the loop as written and the corrected loop find the same parent |
| `Linker.ChildrenOfSnoc` | scanner.go:109 | returning one more device appends it to the children of its parent and of no other |
| `Linker.ChildrenOfMembers` | scanner.go:107-110 | a device is among the children of `q` exactly when `q` is its parent |
| `Linker.ChildrenOfDistinct` | scanner.go:109-110 | no device appears twice among the children of a device |
| `Linker.KidsStep` | scanner.go:109 | the appended children table stays equal to the children of the returned devices |
| `Linker.VisitedPathsDistinct` | scanner.go:100-115 | the devices returned from the path-keyed map have pairwise distinct `Devpath` |
| `Linker.DistinctSnoc` | scanner.go:114 | appending a device not yet returned keeps the returned devices distinct |
| `Linker.VisitStep` | scanner.go:100-114 | visiting one more map entry returns its device once, under its own path |
| `Linker.Attach` | scanner.go:108-109 | the child's `Parent` becomes the parent and the parent's `Children` gets the child appended, also when the two are the same device |
| `Linker.LinkOne` | scanner.go:101-114 | one round of the map loop, its search running down to a given segment (the first in the source), links the device to the path the search finds, appends it to that device's children and changes no other device's links |
| `Linker.LinkTree` | scanner.go:99-115 | with the search running down to a given segment (the first in the source): every device of the map is returned exactly once, paths pairwise distinct; a device has a parent iff the search finds a path, the parent is the device at that path, and `c` is among `d.Children` iff `c.Parent == d`, each child once, in the order returned |
| `Linker.ChildrenOfByParent` | scanner.go:107-110 | where the links agree with the parent table, children by table and children by link are the same list |
| `Linker.LinkedIsLinkedBy` | scanner.go:100-115 | the links the pass records are those of its search, for any lowest segment |
| `Linker.LinkedByIsForest` | scanner.go:100-115 | with the search stopping before the first segment the links form the forest: the parent is the nearest strict ancestor that is a device, none when there is none |
| `Linker.AsWrittenSelfLinked` | scanner.go:104-109 | after the pass as the source runs it, every device whose path has one segment is its own parent and one of its own children |
| `Linker.AsWrittenNested` | scanner.go:104-111 | after that pass, every device whose path has two segments or more has as parent the nearest device above it, never itself, and none when there is none |
| `Records.UeventPair` | scanner.go:187-191 | a uevent line assigns iff it contains `=`; then the key is the text before the first `=` and the value is the rest |
| `Records.UeventPairOfLine` | scanner.go:187-192 | a line `A=B=C` reads as key `A`, value `B=C` |
| `Records.UeventLastWins` | scanner.go:186-193 | after the loop a key maps to the value of the last line assigning it |
| `Records.UeventUntouched` | scanner.go:186-193 | a key no line assigns keeps its previous value or absence; lines without `=` change nothing |
| `Records.UeventStepKeys` | scanner.go:187-192 | one line adds its own key and no other |
| `Records.UeventKeys` | scanner.go:186-193 | the keys after the loop are the earlier keys and the keys of the assigning lines |
| `Records.ParseUdevLine` | scanner.go:263-285 | a line read as a record starts with `I`, `G` or `E` and a `:`; a property key has no `=` |
| `Records.LetterLine` | scanner.go:263 | a line `L:value` is cut into the letter and the whole value |
| `Records.ParseInitialized` | scanner.go:268-271 | an `I:` line reads as its timestamp |
| `Records.ParseTag` | scanner.go:273-276 | a `G:` line reads as its tag |
| `Records.ParseProperty` | scanner.go:278-285 | an `E:k=v` line reads as key `k`, value `v` |
| `Records.ParseFormat` | scanner.go:262-286 | a record written as a line is read back as the same record |
| `Records.FormatParse` | scanner.go:262-286 | a line that is not skipped is exactly the written form of what it is read as |
| `Records.SkippedLines` | scanner.go:263-285 | lines without `:`, letters other than `I`, `G`, `E`, and `E:` lines without `=` are skipped |
| `Records.UdevUsecLastWins` | scanner.go:268-271 | `UsecInitialized` is the value of the last `I:` line |
| `Records.UdevUsecUntouched` | scanner.go:268-271 | without `I:` lines `UsecInitialized` keeps its value |
| `Records.ConcatMapAppend` | scanner.go:262-276 | what consecutive runs of lines append is appended in order |
| `Records.UdevTagsAppend` | scanner.go:273-276 | the tags of consecutive runs of lines are appended in order |
| `Records.UdevTagsOfTagLines` | scanner.go:273-276 | tags written as `G:` lines are read back in the same order with duplicates kept |
| `Records.UdevTagsMembers` | scanner.go:273-276 | a string is a tag exactly when some line is `G:` followed by it |
| `Records.UdevEnvLastOther` | scanner.go:278-285 | a last line that does not assign `k` leaves `k` as it was |
| `Records.UdevEnvLastHit` | scanner.go:278-285 | a last line `E:k=v` sets `k` to `v` |
| `Records.UdevEnvLastWins` | scanner.go:278-285 | `Env[k]` is the value of the last `E:k=` line, whatever it held before |
| `Records.UdevEnvUntouched` | scanner.go:278-285 | a key no `E:` line assigns keeps its previous value or absence |
| `Scanner.AttrsOfSnoc` | scanner.go:148-159 | one more directory entry adds its trimmed content under its name when it is a readable attribute file and changes nothing otherwise |
| `Scanner.AttrsOfKeys` | scanner.go:148-159 | the attribute names are exactly the names of the listed entries that are readable files other than `uevent` and `descriptors` |
| `Scanner.AttrsOfValues` | scanner.go:153-158 | each attribute value is the trimmed content of the file of that name |
| `Scanner.AttrsExcluded` | scanner.go:149-158 | no attribute is named `uevent` or `descriptors`, and every value is trimmed |
| `Scanner.ReadAttrs` | scanner.go:141-162 | a directory that cannot be listed is an error with no attributes; otherwise the attributes of the listing, unreadable files skipped without error |
| `Scanner.LimitRead` | scanner.go:234 | at most the first 128 KiB of the file are read, all of it when shorter |
| `Scanner.ReadDevFile` | scanner.go:213-236 | the value is trimmed and at most 128 KiB long; a missing dev file gives `""` and no error |
| `Scanner.DevFileErrors` | scanner.go:213-236 | the dev file fails exactly on a stat or open failure or a read failure before the limit, and gives the trimmed first 128 KiB of the file |
| `Scanner.UdevInfoTiers` | scanner.go:238-294 | the record consulted is `"c" + devString`; a missing record is no error and changes nothing, stat and open failures are returned with nothing changed, a read record applies its lines and returns only a read failure |
| `Scanner.ApplyUdevSnoc` | scanner.go:262-286 | reading one more record line is one more step of the line loop |
| `Scanner.ReadUdevLine` | scanner.go:263-285 | one record line updates the device as the record it reads as says |
| `Scanner.ReadUdevInfo` | scanner.go:238-294 | the device's `Env`, `Tags` and `UsecInitialized` and the error are those of reading the record |
| `Scanner.ReadUeventFile` | scanner.go:164-211 | the device data and the error are those of reading the uevent file, the dev file and the record in that order |
| `Scanner.UeventMissing` | scanner.go:165-172 | a missing uevent file is no error and changes nothing |
| `Scanner.UeventUnreadable` | scanner.go:165-177 | stat and open failures of the uevent file are returned with the device unchanged |
| `Scanner.MissingDevFile` | scanner.go:199-205 | without a dev file the record consulted is the one named `c` |
| `Scanner.UeventValueKept` | scanner.go:186-205 | a uevent value survives when the record has no `E:` line for its key |
| `Scanner.UdevOverridesUevent` | scanner.go:186-205 | an `E:k=v` line of the record overrides the uevent file's value of `k` |
| `Scanner.TagsFromRecord` | scanner.go:199-205 | a new device's tags are the `G:` values of its record in order, and nothing else |
| `Scanner.VisitGrows` | scanner.go:66-93 | the callback never removes a kept device: after an error it changes nothing, otherwise it adds at most the device of the entry's directory |
| `Scanner.WalkStep` | scanner.go:66-94 | non-marker entries and failed entries are skipped; a marker in an unlistable directory stops the walk; a marker whose uevent processing fails is dropped; any other marker stores its device under its directory |
| `Scanner.WalkErrorSticks` | scanner.go:83-85 | once the callback returned an error the walk stops and keeps it |
| `Scanner.WalkError` | scanner.go:66-97 | the walk fails exactly when a marker's directory cannot be listed, with that `ReadDir` error; a walk without markers, such as an empty root, keeps no device and has no error |
| `Scanner.WalkKept` | scanner.go:75-92 | every kept device comes from a marker of the walk in its directory, read without error, and holds what reading that directory gives |
| `Scanner.WalkCovers` | scanner.go:75-92 | conversely, after a walk without error, every marker in a listable directory whose uevent processing succeeded has a device kept under its directory |
| `Scanner.SnapshotInsert` | scanner.go:92 | storing a device adds its record under its path |
| `Scanner.VisitMarker` | scanner.go:75-93 | a new device for the marker's directory with empty links, its attributes and read data; a listing error is the callback's error; a uevent failure drops the device without error |
| `Scanner.DiscoverStep` | scanner.go:66-94 | one callback keeps the device map equal to the walk specification |
| `Scanner.Discover` | scanner.go:66-97 | the device map after the walk holds the records of the walk specification, and the error is the walk's |
| `Scanner.LinkedScanned` | scanner.go:100-115 | the devices of a map holding the walk's records, returned once each and linked into a forest, hold exactly those records, one device per path, with empty vendor and product IDs |
| `Scanner.LinkDevices` | scanner.go:99-115 | the linking pass with the corrected search: it leaves every record and the empty vendor and product IDs untouched, returns every device of the map once with distinct paths, and links them by the search that stops before the first segment |
| `Scanner.ScanDevices` | scanner.go:62-118 | on error no devices; otherwise exactly the kept devices, once each with distinct paths, holding their records, `VendorID`/`ProductID` empty, linked into a forest by the corrected search |
| `Devices.Device.constructor` | scanner.go:75-80 | a device starts with its path, empty `Env` and `Attrs`, no tags, no parent and no children |

## Left out

- `NewScanner` and the default roots `/sys/devices` and `/run/udev/data`
  (scanner.go:35-59): opening OS directories. The roots are values given
  to `ScanDevices`.
- The matcher and the option functions (options.go). `ScanDevices` does
  not apply the stored matcher, and the matcher package is not part of this
  model. Nothing about filtering results is claimed.
- `fs.WalkDir` itself: the walk is a given sequence of entries, each with
  its path, whether it is a directory, and whether it came with an error.
  The model does not check that the sequence matches the `dirs` listings,
  that it is in lexical order, or that an unreadable directory's subtree
  is skipped.
- The race between `Stat` and `Open`, file closing and `slog` logging. Each
  path has one fixed outcome.
- `bufio.Scanner`'s 64 KiB token limit and its `ErrTooLong` error. Lines of
  any length are read.
- Strings are sequences of characters with one character per byte. There is
  no UTF-8 decoding.
- `VendorID` and `ProductID`: nothing in the scanner fills them. The model
  proves they stay empty.
- Go's map iteration order: the linking pass picks the next device by an
  unspecified choice. The order of the output and of `Children` is that
  choice; no property depends on it.
- `getDevice` (scanner.go:120-139): never called. Its shape is what the
  walk callback is modelled on.
- `Scanner.LinkDevices`: runs `Linker.LinkTree` with the corrected parent
  search of the finding below, so a device whose path has one segment gets
  no parent. The source's pass makes it its own parent and child; that pass
  is `Linker.LinkTree` with lowest segment 0, described by
  `Linker.AsWrittenSelfLinked` and `Linker.AsWrittenNested`.
- `Scanner.ScanDevices`: returns the devices linked by `Scanner.LinkDevices`,
  so the same difference applies to its forest.

## Findings

| source | as written | input that shows it | evidently intended | confidence | as-written member | corrected member |
|---|---|---|---|---|---|---|
| scanner.go:104-109 | the stripping loop runs down to `i >= 0`; for a path of one segment, `TrimSuffix(p, "/"+p)` strips nothing, so the device finds itself in the map, becomes its own `Parent` and is appended to its own `Children` | a device at `pci0000:00` (a `uevent` directly under the devices root) | stop before the first segment, so only strict ancestors are looked up and the links form a forest | high, not executed | `Linker.AsWrittenSelfLinked` | `Linker.LinkedByIsForest` |
