/** The scanner of scanner.go: a walk over the devices tree that turns every
    `uevent` file into a device (attributes from the sibling files, Env from
    the uevent lines, then Env, Tags and UsecInitialized from the udev
    database record named after the `dev` file), followed by the linking
    pass of the Linker module.

    Each reading operation is specified by a function on the two roots and
    the state of the device before it; the methods that update a device in
    place are proved to leave it in the state that function gives. */
module Scanner {
  import opened Optional
  import opened Strings
  import opened Paths
  import opened FileSystem
  import opened Records
  import opened Devices
  import opened Linker

  /** The most a dev file is read: 128 KiB. */
  const MaxDevSize: nat := 128 * 1024

  // ---------------------------------------------------------------------
  // readAttrs

  /** A directory entry that readAttrs stores: a readable regular file other
      than `uevent` and `descriptors`. */
  predicate IsAttrFile(root: Root, dir: string, e: DirEntry) {
    && !e.isDir
    && e.name != "uevent"
    && e.name != "descriptors"
    && ReadFile(root, PathJoin(dir, e.name)).Some?
  }

  /** The attributes read from the listing `entries` of `dir`, in listing
      order. */
  function AttrsOf(root: Root, dir: string, entries: seq<DirEntry>): map<string, string>
    decreases |entries|
  {
    if entries == [] then map[]
    else
      var e := entries[|entries| - 1];
      var before := AttrsOf(root, dir, entries[..|entries| - 1]);
      if IsAttrFile(root, dir, e) then before[e.name := Trim(ReadFile(root, PathJoin(dir, e.name)).value)]
      else before
  }

  /** Reading one more entry of the listing. */
  lemma AttrsOfSnoc(root: Root, dir: string, entries: seq<DirEntry>, e: DirEntry)
    ensures AttrsOf(root, dir, entries + [e]) ==
      if IsAttrFile(root, dir, e) then AttrsOf(root, dir, entries)[e.name := Trim(ReadFile(root, PathJoin(dir, e.name)).value)]
      else AttrsOf(root, dir, entries)
  {
    assert (entries + [e])[..|entries|] == entries;
  }

  /** The keys are exactly the names of the attribute files of the
      listing. */
  lemma {:induction false} AttrsOfKeys(root: Root, dir: string, entries: seq<DirEntry>, k: string)
    ensures k in AttrsOf(root, dir, entries) <==>
      exists j :: 0 <= j < |entries| && entries[j].name == k && IsAttrFile(root, dir, entries[j])
    decreases |entries|
  {
    if entries != [] {
      var n := |entries|;
      var init := entries[..n - 1];
      var e := entries[n - 1];
      AttrsOfKeys(root, dir, init, k);
      assert entries == init + [e];
      AttrsOfSnoc(root, dir, init, e);
      if exists j :: 0 <= j < n && entries[j].name == k && IsAttrFile(root, dir, entries[j]) {
        var j :| 0 <= j < n && entries[j].name == k && IsAttrFile(root, dir, entries[j]);
        if j < n - 1 {
          assert init[j] == entries[j];
        }
      }
      if exists j :: 0 <= j < n - 1 && init[j].name == k && IsAttrFile(root, dir, init[j]) {
        var j :| 0 <= j < n - 1 && init[j].name == k && IsAttrFile(root, dir, init[j]);
        assert entries[j] == init[j];
      }
    }
  }

  /** Each value is the trimmed content of the file of that name. */
  lemma {:induction false} AttrsOfValues(root: Root, dir: string, entries: seq<DirEntry>, k: string)
    requires k in AttrsOf(root, dir, entries)
    ensures ReadFile(root, PathJoin(dir, k)).Some?
    ensures AttrsOf(root, dir, entries)[k] == Trim(ReadFile(root, PathJoin(dir, k)).value)
    decreases |entries|
  {
    var n := |entries|;
    var init := entries[..n - 1];
    var e := entries[n - 1];
    assert entries == init + [e];
    AttrsOfSnoc(root, dir, init, e);
    if !(e.name == k && IsAttrFile(root, dir, e)) {
      AttrsOfValues(root, dir, init, k);
    }
  }

  /** No attribute is named `uevent` or `descriptors`, and every value is
      trimmed of newlines, carriage returns, tabs and spaces. */
  lemma AttrsExcluded(root: Root, dir: string, entries: seq<DirEntry>, k: string)
    requires k in AttrsOf(root, dir, entries)
    ensures k != "uevent" && k != "descriptors"
    ensures IsTrimmed(AttrsOf(root, dir, entries)[k])
  {
    AttrsOfKeys(root, dir, entries, k);
    AttrsOfValues(root, dir, entries, k);
  }

  /** readAttrs: list `path` and read each attribute file. A directory that
      cannot be listed is an error and gives no attributes; unreadable files
      are skipped. */
  method ReadAttrs(root: Root, path: string) returns (attrs: map<string, string>, err: Option<Error>)
    ensures err.Some? <==> path !in root.dirs
    ensures err.Some? ==> err.value == Error(ReadDir, path) && attrs == map[]
    ensures err.None? ==> attrs == AttrsOf(root, path, root.dirs[path])
  {
    if path !in root.dirs {
      return map[], Some(Error(ReadDir, path));
    }
    var files := root.dirs[path];
    attrs := map[];
    var i := 0;
    while i < |files|
      invariant 0 <= i <= |files|
      invariant attrs == AttrsOf(root, path, files[..i])
    {
      var f := files[i];
      assert files[..i + 1] == files[..i] + [f];
      AttrsOfSnoc(root, path, files[..i], f);
      if !f.isDir && f.name != "uevent" && f.name != "descriptors" {
        var data := ReadFile(root, PathJoin(path, f.name));
        if data.Some? {
          attrs := attrs[f.name := Trim(data.value)];
        }
      }
      i := i + 1;
    }
    assert files[..i] == files;
    err := None;
  }

  // ---------------------------------------------------------------------
  // readDevFile

  /** What io.LimitReader with the 128 KiB limit lets through of `data`:
      its first MaxDevSize characters. */
  function LimitRead(data: string): (head: string)
    ensures |head| <= MaxDevSize && |head| <= |data| && head == data[..|head|]
    ensures |head| < MaxDevSize ==> head == data
  {
    if |data| >= MaxDevSize then data[..MaxDevSize] else data
  }

  /** readDevFile: the trimmed content of the dev file, read through a
      128 KiB limit. A file that does not exist gives "" and no error; a stat
      or open failure gives "" and that error; a read failure gives what was
      read and the error, unless the limit is reached first. */
  function ReadDevFile(root: Root, path: string): (r: (string, Option<Error>))
    ensures |r.0| <= MaxDevSize && IsTrimmed(r.0)
    ensures path !in root.files ==> r == ("", None)
  {
    if path !in root.files then ("", None)
    else
      match root.files[path]
      case StatFails => ("", Some(Error(Stat, path)))
      case OpenFails => ("", Some(Error(Open, path)))
      case Content(data, readFails) =>
        (Trim(LimitRead(data)), if readFails && |data| < MaxDevSize then Some(Error(Read, path)) else None)
  }

  /** The dev file fails exactly when stat, open or a read before the limit
      fails; what it gives is the first 128 KiB of the file, trimmed, and on
      a stat or open failure nothing. */
  lemma DevFileErrors(root: Root, path: string)
    requires path in root.files
    ensures ReadDevFile(root, path).1.Some? <==>
      || root.files[path].StatFails?
      || root.files[path].OpenFails?
      || (root.files[path].Content? && root.files[path].readFails && |root.files[path].data| < MaxDevSize)
    ensures ReadDevFile(root, path).0 ==
      if root.files[path].Content? then Trim(LimitRead(root.files[path].data)) else ""
  {
  }

  // ---------------------------------------------------------------------
  // readUdevInfo

  /** The fields of a device that the reading of uevent and udev files sets. */
  datatype DeviceData = DeviceData(env: map<string, string>, tags: seq<string>, usec: string)

  /** The data of a freshly created device. */
  const Empty := DeviceData(map[], [], "")

  /** The current data of `d`. */
  function DataOf(d: Device): DeviceData
    reads d`Env, d`Tags, d`UsecInitialized
  {
    DeviceData(d.Env, d.Tags, d.UsecInitialized)
  }

  /** The name of the udev database record of a character device. */
  function RecordName(devString: string): string {
    "c" + devString
  }

  /** The result of reading the lines of a udev database record into `s`. */
  function ApplyUdevLines(s: DeviceData, lines: seq<string>): DeviceData {
    DeviceData(UdevEnv(s.env, lines), s.tags + UdevTags(lines), UdevUsec(s.usec, lines))
  }

  /** One line of a udev database record applied to `s`. */
  function UdevStep(s: DeviceData, line: string): DeviceData {
    match ParseUdevLine(line)
    case Initialized(u) => s.(usec := u)
    case Tag(t) => s.(tags := s.tags + [t])
    case Property(k, v) => s.(env := s.env[k := v])
    case Skipped => s
  }

  /** Reading one more line is one more step. */
  lemma ApplyUdevSnoc(s: DeviceData, lines: seq<string>, line: string)
    ensures ApplyUdevLines(s, lines + [line]) == UdevStep(ApplyUdevLines(s, lines), line)
  {
    var all := lines + [line];
    assert all[..|all| - 1] == lines;
    assert all[|all| - 1] == line;
    assert UdevTags(all) == UdevTags(lines) + TagOf(line);
  }

  /** readUdevInfo: the device data after reading record "c" + devString of
      the udev database, and the error it returns. A record that does not
      exist changes nothing and is no error; stat and open failures change
      nothing; a read failure keeps the lines read before it. */
  function UdevInfo(udevRoot: Root, devString: string, s: DeviceData): (DeviceData, Option<Error>) {
    var path := RecordName(devString);
    if path !in udevRoot.files then (s, None)
    else
      match udevRoot.files[path]
      case StatFails => (s, Some(Error(Stat, path)))
      case OpenFails => (s, Some(Error(Open, path)))
      case Content(data, readFails) =>
        (ApplyUdevLines(s, Lines(data)), if readFails then Some(Error(Read, path)) else None)
  }

  /** The udev database record is looked up under "c" + devString. A record
      that does not exist changes nothing and is no error; a stat or open
      failure changes nothing and is returned; a record that is read applies
      its lines in order and returns only a read failure. */
  lemma UdevInfoTiers(udevRoot: Root, devString: string, s: DeviceData)
    ensures "c" + devString !in udevRoot.files ==> UdevInfo(udevRoot, devString, s) == (s, None)
    ensures "c" + devString in udevRoot.files && udevRoot.files["c" + devString].StatFails? ==>
      UdevInfo(udevRoot, devString, s) == (s, Some(Error(Stat, "c" + devString)))
    ensures "c" + devString in udevRoot.files && udevRoot.files["c" + devString].OpenFails? ==>
      UdevInfo(udevRoot, devString, s) == (s, Some(Error(Open, "c" + devString)))
    ensures "c" + devString in udevRoot.files && udevRoot.files["c" + devString].Content? ==>
      var data := udevRoot.files["c" + devString].data;
      && UdevInfo(udevRoot, devString, s).0.env == UdevEnv(s.env, Lines(data))
      && UdevInfo(udevRoot, devString, s).0.tags == s.tags + UdevTags(Lines(data))
      && UdevInfo(udevRoot, devString, s).0.usec == UdevUsec(s.usec, Lines(data))
      && (UdevInfo(udevRoot, devString, s).1.Some? <==> udevRoot.files["c" + devString].readFails)
  {
  }

  /** One line of a udev database record read into the device `d`. */
  method ReadUdevLine(d: Device, line: string)
    modifies d`Env, d`Tags, d`UsecInitialized
    ensures DataOf(d) == UdevStep(old(DataOf(d)), line)
  {
    var (k, v, ok) := Cut(line, ':');
    if ok {
      if k == "I" {
        d.UsecInitialized := v;
      } else if k == "G" {
        d.Tags := d.Tags + [v];
      } else if k == "E" {
        var (ck, cv, found) := Cut(v, '=');
        if found {
          d.Env := d.Env[ck := cv];
        }
      }
    }
  }

  /** readUdevInfo on the device `d`, reading the record line by line. */
  method ReadUdevInfo(udevRoot: Root, devString: string, d: Device) returns (err: Option<Error>)
    modifies d`Env, d`Tags, d`UsecInitialized
    ensures (DataOf(d), err) == UdevInfo(udevRoot, devString, old(DataOf(d)))
  {
    var path := RecordName(devString);
    if path !in udevRoot.files {
      return None;
    }
    match udevRoot.files[path]
    case StatFails =>
      return Some(Error(Stat, path));
    case OpenFails =>
      return Some(Error(Open, path));
    case Content(data, readFails) =>
      var lines := Lines(data);
      ghost var s := DataOf(d);
      var i := 0;
      while i < |lines|
        invariant 0 <= i <= |lines|
        invariant DataOf(d) == ApplyUdevLines(s, lines[..i])
      {
        var line := lines[i];
        assert lines[..i + 1] == lines[..i] + [line];
        ApplyUdevSnoc(s, lines[..i], line);
        ReadUdevLine(d, line);
        i := i + 1;
      }
      assert lines[..i] == lines;
      err := if readFails then Some(Error(Read, path)) else None;
  }

  // ---------------------------------------------------------------------
  // readUeventFile

  /** readUeventFile: the device data after reading the uevent file at
      `path` and then, through the dev file next to it, the udev database
      record; and the error it returns. A uevent file that does not exist
      changes nothing and is no error. A read failure of the uevent file
      keeps its lines and stops there; a failure of the dev file stops
      before the udev database. */
  function Uevent(devRoot: Root, udevRoot: Root, path: string, s: DeviceData): (DeviceData, Option<Error>) {
    if path !in devRoot.files then (s, None)
    else
      match devRoot.files[path]
      case StatFails => (s, Some(Error(Stat, path)))
      case OpenFails => (s, Some(Error(Open, path)))
      case Content(data, readFails) =>
        var s' := s.(env := UeventEnv(s.env, Lines(data)));
        if readFails then (s', Some(Error(Read, path)))
        else
          var (devString, devErr) := ReadDevFile(devRoot, PathJoin(Dir(path), "dev"));
          if devErr.Some? then (s', devErr) else UdevInfo(udevRoot, devString, s')
  }

  /** readUeventFile on the device `device`. */
  method ReadUeventFile(devRoot: Root, udevRoot: Root, path: string, device: Device) returns (err: Option<Error>)
    modifies device`Env, device`Tags, device`UsecInitialized
    ensures (DataOf(device), err) == Uevent(devRoot, udevRoot, path, old(DataOf(device)))
  {
    if path !in devRoot.files {
      return None;
    }
    match devRoot.files[path]
    case StatFails =>
      return Some(Error(Stat, path));
    case OpenFails =>
      return Some(Error(Open, path));
    case Content(data, readFails) =>
      var lines := Lines(data);
      ghost var env := device.Env;
      var i := 0;
      while i < |lines|
        invariant 0 <= i <= |lines|
        invariant device.Env == UeventEnv(env, lines[..i])
        invariant device.Tags == old(device.Tags) && device.UsecInitialized == old(device.UsecInitialized)
      {
        assert lines[..i + 1][..i] == lines[..i];
        var (k, v, ok) := Cut(lines[i], '=');
        if ok {
          device.Env := device.Env[k := v];
        }
        i := i + 1;
      }
      assert lines[..i] == lines;
      if readFails {
        return Some(Error(Read, path));
      }
      var devPath := PathJoin(Dir(path), "dev");
      var (devString, devErr) := ReadDevFile(devRoot, devPath);
      if devErr.Some? {
        return devErr;
      }
      err := ReadUdevInfo(udevRoot, devString, device);
  }

  /** A uevent file that does not exist is no error and changes nothing. */
  lemma UeventMissing(devRoot: Root, udevRoot: Root, path: string, s: DeviceData)
    requires path !in devRoot.files
    ensures Uevent(devRoot, udevRoot, path, s) == (s, None)
  {
  }

  /** Stat and open failures of the uevent file are returned as they are,
      with the device untouched. */
  lemma UeventUnreadable(devRoot: Root, udevRoot: Root, path: string, s: DeviceData)
    requires path in devRoot.files && !devRoot.files[path].Content?
    ensures Uevent(devRoot, udevRoot, path, s).0 == s
    ensures Uevent(devRoot, udevRoot, path, s).1 ==
      Some(Error(if devRoot.files[path].StatFails? then Stat else Open, path))
  {
  }

  /** A uevent file read without error whose directory has no dev file
      leads to the udev database record named "c". */
  lemma MissingDevFile(devRoot: Root, udevRoot: Root, path: string, s: DeviceData)
    requires path in devRoot.files && devRoot.files[path].Content? && !devRoot.files[path].readFails
    requires PathJoin(Dir(path), "dev") !in devRoot.files
    ensures Uevent(devRoot, udevRoot, path, s) ==
      UdevInfo(udevRoot, "", s.(env := UeventEnv(s.env, Lines(devRoot.files[path].data))))
  {
  }

  /** When the uevent file is read without error and assigns `k` in its
      last line doing so, and the udev database record exists and is read
      without error with no `E:` line for `k`, then Env maps `k` to the
      uevent value. */
  lemma UeventValueKept(devRoot: Root, udevRoot: Root, path: string, s: DeviceData, i: nat, k: string, v: string)
    requires path in devRoot.files && devRoot.files[path].Content? && !devRoot.files[path].readFails
    requires var lines := Lines(devRoot.files[path].data);
      i < |lines| && '=' !in k && lines[i] == k + "=" + v
      && forall j :: i < j < |lines| ==> !UeventAssigns(lines[j], k)
    requires var devFile := ReadDevFile(devRoot, PathJoin(Dir(path), "dev"));
      devFile.1.None?
      && RecordName(devFile.0) in udevRoot.files
      && udevRoot.files[RecordName(devFile.0)].Content?
      && forall j :: 0 <= j < |Lines(udevRoot.files[RecordName(devFile.0)].data)| ==>
           !UdevAssigns(Lines(udevRoot.files[RecordName(devFile.0)].data)[j], k)
    ensures k in Uevent(devRoot, udevRoot, path, s).0.env && Uevent(devRoot, udevRoot, path, s).0.env[k] == v
  {
    var lines := Lines(devRoot.files[path].data);
    var env := UeventEnv(s.env, lines);
    UeventLastWins(s.env, lines, i, k, v);
    var devString := ReadDevFile(devRoot, PathJoin(Dir(path), "dev")).0;
    UdevEnvUntouched(env, Lines(udevRoot.files[RecordName(devString)].data), k);
  }

  /** The udev database overrides the uevent file: when the record is found
      and its last `E:` line for `k` sets `v`, Env maps `k` to `v` whatever
      the uevent file said, including when reading the record fails later. */
  lemma UdevOverridesUevent(devRoot: Root, udevRoot: Root, path: string, s: DeviceData, i: nat, k: string, v: string)
    requires path in devRoot.files && devRoot.files[path].Content? && !devRoot.files[path].readFails
    requires var devFile := ReadDevFile(devRoot, PathJoin(Dir(path), "dev"));
      devFile.1.None?
      && RecordName(devFile.0) in udevRoot.files
      && udevRoot.files[RecordName(devFile.0)].Content?
      && var lines := Lines(udevRoot.files[RecordName(devFile.0)].data);
         i < |lines| && '=' !in k && lines[i] == "E:" + (k + "=" + v)
         && forall j :: i < j < |lines| ==> !UdevAssigns(lines[j], k)
    ensures k in Uevent(devRoot, udevRoot, path, s).0.env && Uevent(devRoot, udevRoot, path, s).0.env[k] == v
  {
    var env := UeventEnv(s.env, Lines(devRoot.files[path].data));
    var devString := ReadDevFile(devRoot, PathJoin(Dir(path), "dev")).0;
    UdevEnvLastWins(env, Lines(udevRoot.files[RecordName(devString)].data), i, k, v);
  }

  /** The tags of a device read from scratch are the values of the `G:`
      lines of its udev database record, in order. */
  lemma TagsFromRecord(devRoot: Root, udevRoot: Root, path: string, t: string)
    requires path in devRoot.files && devRoot.files[path].Content? && !devRoot.files[path].readFails
    requires var devFile := ReadDevFile(devRoot, PathJoin(Dir(path), "dev"));
      devFile.1.None? && RecordName(devFile.0) in udevRoot.files && udevRoot.files[RecordName(devFile.0)].Content?
    ensures var devString := ReadDevFile(devRoot, PathJoin(Dir(path), "dev")).0;
      var lines := Lines(udevRoot.files[RecordName(devString)].data);
      && Uevent(devRoot, udevRoot, path, Empty).0.tags == UdevTags(lines)
      && (t in Uevent(devRoot, udevRoot, path, Empty).0.tags <==> exists j :: 0 <= j < |lines| && lines[j] == "G:" + t)
  {
    var devString := ReadDevFile(devRoot, PathJoin(Dir(path), "dev")).0;
    var lines := Lines(udevRoot.files[RecordName(devString)].data);
    UdevTagsMembers(lines, t);
    assert [] + UdevTags(lines) == UdevTags(lines);
  }

  // ---------------------------------------------------------------------
  // the walk

  /** The walk callback acts on an entry when it came without error, is not
      a directory and is named `uevent`. */
  predicate IsMarker(e: WalkEntry) {
    !e.failed && !e.isDir && Base(e.path) == "uevent"
  }

  /** What a device is made of: its attributes and the data read into it. */
  datatype Record = Record(attrs: map<string, string>, data: DeviceData)

  /** The current record of `d`. */
  function RecordOf(d: Device): Record
    reads d`Attrs, d`Env, d`Tags, d`UsecInitialized
  {
    Record(d.Attrs, DataOf(d))
  }

  /** The state of the walk: the devices kept so far, by path, and the error
      that stopped the walk, if any. */
  datatype Scan = Scan(records: map<string, Record>, err: Option<Error>)

  /** One call of the walk callback. Entries that are not markers are
      skipped. For a marker, a directory that cannot be listed stops the
      walk with that error; otherwise the device is kept, under its
      directory, unless reading its uevent file fails, in which case it is
      dropped and the walk goes on. Nothing happens after the walk stopped. */
  function Visit(devRoot: Root, udevRoot: Root, s: Scan, e: WalkEntry): Scan {
    if s.err.Some? || !IsMarker(e) then s
    else
      var dir := Dir(e.path);
      if dir !in devRoot.dirs then Scan(s.records, Some(Error(ReadDir, dir)))
      else
        var (data, err) := Uevent(devRoot, udevRoot, e.path, Empty);
        if err.Some? then s
        else Scan(s.records[dir := Record(AttrsOf(devRoot, dir, devRoot.dirs[dir]), data)], None)
  }

  /** The callback never removes a kept device: after an error it changes
      nothing, and otherwise it keeps every device and adds at most the one
      of the entry's directory. */
  lemma VisitGrows(devRoot: Root, udevRoot: Root, s: Scan, e: WalkEntry)
    ensures s.err.Some? ==> Visit(devRoot, udevRoot, s, e) == s
    ensures Visit(devRoot, udevRoot, s, e).err.Some? ==> Visit(devRoot, udevRoot, s, e).records == s.records
    ensures s.records.Keys <= Visit(devRoot, udevRoot, s, e).records.Keys <= s.records.Keys + {Dir(e.path)}
  {
  }

  /** The state after the callback has seen `walk`, in order. */
  function Walk(devRoot: Root, udevRoot: Root, walk: seq<WalkEntry>): Scan
    decreases |walk|
  {
    if walk == [] then Scan(map[], None)
    else Visit(devRoot, udevRoot, Walk(devRoot, udevRoot, walk[..|walk| - 1]), walk[|walk| - 1])
  }

  /** One more entry of the walk: skipped unless it is a marker; a marker in
      a directory that cannot be listed stops the walk; a marker whose uevent
      file fails is dropped; any other marker stores its record. */
  lemma WalkStep(devRoot: Root, udevRoot: Root, walk: seq<WalkEntry>, i: nat)
    requires i < |walk| && Walk(devRoot, udevRoot, walk[..i]).err.None?
    ensures !IsMarker(walk[i]) ==> Walk(devRoot, udevRoot, walk[..i + 1]) == Walk(devRoot, udevRoot, walk[..i])
    ensures IsMarker(walk[i]) && Dir(walk[i].path) !in devRoot.dirs ==>
      Walk(devRoot, udevRoot, walk[..i + 1]).err == Some(Error(ReadDir, Dir(walk[i].path)))
    ensures IsMarker(walk[i]) && Dir(walk[i].path) in devRoot.dirs && Uevent(devRoot, udevRoot, walk[i].path, Empty).1.Some? ==>
      Walk(devRoot, udevRoot, walk[..i + 1]) == Walk(devRoot, udevRoot, walk[..i])
    ensures IsMarker(walk[i]) && Dir(walk[i].path) in devRoot.dirs && Uevent(devRoot, udevRoot, walk[i].path, Empty).1.None? ==>
      Walk(devRoot, udevRoot, walk[..i + 1])
      == Scan(Walk(devRoot, udevRoot, walk[..i]).records[Dir(walk[i].path) :=
           Record(AttrsOf(devRoot, Dir(walk[i].path), devRoot.dirs[Dir(walk[i].path)]),
                  Uevent(devRoot, udevRoot, walk[i].path, Empty).0)], None)
  {
    assert walk[..i + 1][..i] == walk[..i];
  }

  /** Once the walk has stopped with an error, it keeps that error. */
  lemma {:induction false} WalkErrorSticks(devRoot: Root, udevRoot: Root, walk: seq<WalkEntry>, i: nat)
    requires i <= |walk| && Walk(devRoot, udevRoot, walk[..i]).err.Some?
    ensures Walk(devRoot, udevRoot, walk) == Walk(devRoot, udevRoot, walk[..i])
    decreases |walk|
  {
    if i < |walk| {
      var init := walk[..|walk| - 1];
      assert init[..i] == walk[..i];
      WalkErrorSticks(devRoot, udevRoot, init, i);
    } else {
      assert walk[..i] == walk;
    }
  }

  /** The walk fails exactly when some marker, with no failure before it,
      is in a directory that cannot be listed; without markers it keeps no
      device. */
  lemma {:induction false} WalkError(devRoot: Root, udevRoot: Root, walk: seq<WalkEntry>)
    ensures Walk(devRoot, udevRoot, walk).err.Some? <==>
      exists j :: 0 <= j < |walk| && IsMarker(walk[j]) && Dir(walk[j].path) !in devRoot.dirs
    ensures Walk(devRoot, udevRoot, walk).err.Some? ==>
      Walk(devRoot, udevRoot, walk).err.value.op == ReadDir
      && Walk(devRoot, udevRoot, walk).err.value.path !in devRoot.dirs
    ensures (forall j :: 0 <= j < |walk| ==> !IsMarker(walk[j])) ==> Walk(devRoot, udevRoot, walk) == Scan(map[], None)
    decreases |walk|
  {
    if walk != [] {
      var n := |walk|;
      var init := walk[..n - 1];
      WalkError(devRoot, udevRoot, init);
      assert forall j :: 0 <= j < n - 1 ==> init[j] == walk[j];
    }
  }

  /** `r` is the record the marker `e` gives the device at `k`. */
  predicate KeptFrom(devRoot: Root, udevRoot: Root, e: WalkEntry, k: string, r: Record) {
    && IsMarker(e) && Dir(e.path) == k && k in devRoot.dirs
    && Uevent(devRoot, udevRoot, e.path, Empty).1.None?
    && r == Record(AttrsOf(devRoot, k, devRoot.dirs[k]), Uevent(devRoot, udevRoot, e.path, Empty).0)
  }

  /** Every kept device sits in the directory of a marker of the walk, its
      uevent file was read without error, and its record is what reading
      that directory gives. */
  lemma {:induction false} WalkKept(devRoot: Root, udevRoot: Root, walk: seq<WalkEntry>, k: string)
    requires k in Walk(devRoot, udevRoot, walk).records
    ensures exists j :: 0 <= j < |walk| && KeptFrom(devRoot, udevRoot, walk[j], k, Walk(devRoot, udevRoot, walk).records[k])
    decreases |walk|
  {
    var n := |walk|;
    var init := walk[..n - 1];
    var before := Walk(devRoot, udevRoot, init);
    var e := walk[n - 1];
    if before.err.None? && IsMarker(e) && Dir(e.path) == k && Dir(e.path) in devRoot.dirs
       && Uevent(devRoot, udevRoot, e.path, Empty).1.None? {
      assert IsMarker(walk[n - 1]);
    } else {
      WalkKept(devRoot, udevRoot, init, k);
      var j :| 0 <= j < |init| && KeptFrom(devRoot, udevRoot, init[j], k, before.records[k]);
      assert walk[j] == init[j];
    }
  }

  /** Conversely, a walk that ends without an error keeps a device for every
      marker in a listable directory whose uevent file was read without
      error: the callback never removes a device it stored. */
  lemma {:induction false} WalkCovers(devRoot: Root, udevRoot: Root, walk: seq<WalkEntry>, j: nat)
    requires j < |walk| && Walk(devRoot, udevRoot, walk).err.None?
    requires IsMarker(walk[j]) && Dir(walk[j].path) in devRoot.dirs
    requires Uevent(devRoot, udevRoot, walk[j].path, Empty).1.None?
    ensures Dir(walk[j].path) in Walk(devRoot, udevRoot, walk).records
    decreases |walk|
  {
    var n := |walk|;
    var init := walk[..n - 1];
    var before := Walk(devRoot, udevRoot, init);
    assert before.err.None?;
    if j < n - 1 {
      assert walk[j] == init[j];
      WalkCovers(devRoot, udevRoot, init, j);
      assert before.records.Keys <= Walk(devRoot, udevRoot, walk).records.Keys;
    }
  }

  /** What `devicesMap` holds, as records. */
  function Snapshot(devicesMap: map<string, Device>): map<string, Record>
    reads devicesMap.Values`Attrs, devicesMap.Values`Env, devicesMap.Values`Tags, devicesMap.Values`UsecInitialized
  {
    map k | k in devicesMap :: RecordOf(devicesMap[k])
  }

  /** Storing a device adds its record. */
  lemma SnapshotInsert(devicesMap: map<string, Device>, k: string, device: Device)
    ensures Snapshot(devicesMap[k := device]) == Snapshot(devicesMap)[k := RecordOf(device)]
  {
  }

  /** The body of the walk callback for a marker at `path`: a new device for
      its directory, filled with the attributes and the uevent file. Failing
      to list the directory is the callback's error; failing to read the
      uevent file drops the device (null) without error. */
  method VisitMarker(devRoot: Root, udevRoot: Root, path: string) returns (device: Device?, err: Option<Error>)
    ensures err.Some? <==> Dir(path) !in devRoot.dirs
    ensures err.Some? ==> err.value == Error(ReadDir, Dir(path)) && device == null
    ensures err.None? ==> (device != null <==> Uevent(devRoot, udevRoot, path, Empty).1.None?)
    ensures device != null ==>
      && fresh(device)
      && device.Devpath == Dir(path)
      && RecordOf(device)
         == Record(AttrsOf(devRoot, Dir(path), devRoot.dirs[Dir(path)]), Uevent(devRoot, udevRoot, path, Empty).0)
      && device.Parent == null && device.Children == []
      && device.VendorID == "" && device.ProductID == ""
  {
    var dir := Dir(path);
    var d := new Device(dir);
    var attrs, attrsErr := ReadAttrs(devRoot, dir);
    if attrsErr.Some? {
      return null, attrsErr;
    }
    d.Attrs := attrs;
    assert DataOf(d) == Empty;
    var uerr := ReadUeventFile(devRoot, udevRoot, path, d);
    if uerr.Some? {
      return null, None;
    }
    return d, None;
  }

  /** Every device of `devicesMap` is new, sits under its own path and has
      not been linked. */
  predicate Unlinked(devicesMap: map<string, Device>)
    reads devicesMap.Values
  {
    forall k :: k in devicesMap ==>
      && devicesMap[k].Devpath == k
      && devicesMap[k].Parent == null && devicesMap[k].Children == []
      && devicesMap[k].VendorID == "" && devicesMap[k].ProductID == ""
  }

  /** Each device of `devicesMap` holds the record `records` has for its key. */
  predicate Holding(devicesMap: map<string, Device>, records: map<string, Record>)
    reads devicesMap.Values`Attrs, devicesMap.Values`Env, devicesMap.Values`Tags, devicesMap.Values`UsecInitialized
  {
    devicesMap.Keys == records.Keys && forall k :: k in devicesMap ==> RecordOf(devicesMap[k]) == records[k]
  }

  /** No device of `devicesMap` has a vendor or product ID. */
  predicate NoIDs(devicesMap: map<string, Device>)
    reads devicesMap.Values`VendorID, devicesMap.Values`ProductID
  {
    forall k :: k in devicesMap ==> devicesMap[k].VendorID == "" && devicesMap[k].ProductID == ""
  }

  /** One entry of the walk seen by the callback, with no error so far. */
  method DiscoverStep(devRoot: Root, udevRoot: Root, walk: seq<WalkEntry>, i: nat, devicesMap: map<string, Device>)
    returns (next: map<string, Device>, err: Option<Error>)
    requires i < |walk| && Walk(devRoot, udevRoot, walk[..i]).err.None?
    requires Snapshot(devicesMap) == Walk(devRoot, udevRoot, walk[..i]).records
    requires Unlinked(devicesMap)
    ensures err == Walk(devRoot, udevRoot, walk[..i + 1]).err
    ensures err.None? ==> Snapshot(next) == Walk(devRoot, udevRoot, walk[..i + 1]).records
    ensures Unlinked(next)
    ensures forall k :: k in next ==> (k in devicesMap && next[k] == devicesMap[k]) || fresh(next[k])
  {
    next := devicesMap;
    err := None;
    var e := walk[i];
    WalkStep(devRoot, udevRoot, walk, i);
    if !e.failed && !e.isDir && Base(e.path) == "uevent" {
      var device;
      device, err := VisitMarker(devRoot, udevRoot, e.path);
      if err.None? && device != null {
        SnapshotInsert(devicesMap, Dir(e.path), device);
        next := devicesMap[Dir(e.path) := device];
      }
    }
  }

  /** The walk of ScanDevices, creating and filling one device per marker. */
  method Discover(devRoot: Root, udevRoot: Root, walk: seq<WalkEntry>) returns (devicesMap: map<string, Device>, err: Option<Error>)
    ensures err == Walk(devRoot, udevRoot, walk).err
    ensures err.None? ==> Snapshot(devicesMap) == Walk(devRoot, udevRoot, walk).records
    ensures forall k :: k in devicesMap ==> fresh(devicesMap[k])
    ensures Unlinked(devicesMap)
  {
    devicesMap := map[];
    var i := 0;
    while i < |walk|
      invariant 0 <= i <= |walk|
      invariant Walk(devRoot, udevRoot, walk[..i]).err.None?
      invariant Snapshot(devicesMap) == Walk(devRoot, udevRoot, walk[..i]).records
      invariant forall k :: k in devicesMap ==> fresh(devicesMap[k])
      invariant Unlinked(devicesMap)
    {
      var next, stepErr := DiscoverStep(devRoot, udevRoot, walk, i, devicesMap);
      if stepErr.Some? {
        err := stepErr;
        WalkErrorSticks(devRoot, udevRoot, walk, i + 1);
        return;
      }
      devicesMap := next;
      i := i + 1;
    }
    assert walk[..i] == walk;
    err := None;
  }

  /** Each of `devices` holds the record of its path. */
  predicate HoldRecords(devices: seq<Device>, records: map<string, Record>)
    reads (set d | d in devices)`Attrs, (set d | d in devices)`Env, (set d | d in devices)`Tags,
      (set d | d in devices)`UsecInitialized
  {
    forall d :: d in devices ==> d.Devpath in records && RecordOf(d) == records[d.Devpath]
  }

  /** What a successful scan returns for the records `records`: every
      device once, paths pairwise distinct, each holding the record of its
      path, every record held by a device, vendor and product IDs empty,
      and the devices linked into a forest by the parent search over the
      paths of the records. */
  predicate Scanned(devices: seq<Device>, records: map<string, Record>)
    reads set d | d in devices
  {
    && Distinct(devices) && DistinctPaths(devices)
    && HoldRecords(devices, records)
    && (forall k :: k in records ==> exists d :: d in devices && d.Devpath == k)
    && (forall d :: d in devices ==> d.VendorID == "" && d.ProductID == "")
    && IsForest(devices, records.Keys)
  }

  /** The devices of a map whose records are `records`, returned once each
      and linked into a forest, are what a successful scan returns. */
  lemma LinkedScanned(devicesMap: map<string, Device>, devices: seq<Device>, records: map<string, Record>)
    requires Holding(devicesMap, records) && NoIDs(devicesMap)
    requires forall k :: k in devicesMap ==> devicesMap[k].Devpath == k
    requires Linked(devicesMap, devices, 1)
    ensures Scanned(devices, records)
  {
    assert records.Keys == devicesMap.Keys;
    LinkedByIsForest(devices, devicesMap.Keys);
    forall d | d in devices
      ensures d.Devpath in records && RecordOf(d) == records[d.Devpath]
      ensures d.VendorID == "" && d.ProductID == ""
    {
      var i :| 0 <= i < |devices| && devices[i] == d;
      assert devicesMap[d.Devpath] == d;
    }
    assert HoldRecords(devices, records);
    forall k | k in records
      ensures exists d :: d in devices && d.Devpath == k
    {
      assert devicesMap[k] in devices && devicesMap[k].Devpath == k;
    }
  }

  /** The linking pass on the devices the walk kept: each returned once,
      still holding its record, linked into a forest. */
  method LinkDevices(devicesMap: map<string, Device>, ghost records: map<string, Record>) returns (devices: seq<Device>)
    requires Holding(devicesMap, records) && NoIDs(devicesMap)
    requires Unlinked(devicesMap)
    modifies devicesMap.Values`Parent, devicesMap.Values`Children
    ensures Linked(devicesMap, devices, 1)
    ensures Holding(devicesMap, records) && NoIDs(devicesMap)
  {
    devices := LinkTree(devicesMap, 1);
  }

  /** ScanDevices: walk the devices tree, then link the devices found. On
      an error no device is returned. Otherwise the devices are new and are
      what a successful scan of the records of the walk returns. */
  method ScanDevices(devRoot: Root, udevRoot: Root, walk: seq<WalkEntry>) returns (devices: seq<Device>, err: Option<Error>)
    ensures err == Walk(devRoot, udevRoot, walk).err
    ensures err.Some? ==> devices == []
    ensures err.None? ==> (forall d :: d in devices ==> fresh(d)) && Scanned(devices, Walk(devRoot, udevRoot, walk).records)
  {
    var devicesMap;
    devicesMap, err := Discover(devRoot, udevRoot, walk);
    if err.Some? {
      return [], err;
    }
    ghost var records := Walk(devRoot, udevRoot, walk).records;
    assert Holding(devicesMap, records) && NoIDs(devicesMap);
    devices := LinkDevices(devicesMap, records);
    LinkedScanned(devicesMap, devices, records);
  }

}
