/** What the two line loops of the scanner do to a device, as functions of
    the lines read: the uevent loop (`KEY=VALUE` lines into `Env`) and the
    udev database loop (`I:`, `G:` and `E:` lines into `UsecInitialized`,
    `Tags` and `Env`). Each is a fold over the lines from first to last, so
    `Fold(lines + [l]) == Step(Fold(lines), l)`, which is how the loops of
    the scanner compute them. */
module Records {
  import opened Strings
  import opened Optional

  // ---------------------------------------------------------------------
  // uevent lines

  /** The assignment a uevent line makes: split at the first '='. */
  function UeventPair(line: string): (p: Option<(string, string)>)
    ensures p.Some? <==> '=' in line
    ensures p.Some? ==> line == p.value.0 + "=" + p.value.1 && '=' !in p.value.0
  {
    var (key, value, found) := Cut(line, '=');
    if found then Some((key, value)) else None
  }

  /** A line `key=value` whose key has no '=' is read as exactly that pair;
      the value may contain further '=' characters. */
  lemma UeventPairOfLine(key: string, value: string)
    requires '=' !in key
    ensures UeventPair(key + "=" + value) == Some((key, value))
  {
    CutJoin(key, '=', value);
  }

  /** One step of the uevent loop. */
  function UeventStep(env: map<string, string>, line: string): map<string, string> {
    match UeventPair(line)
    case Some((k, v)) => env[k := v]
    case None => env
  }

  /** Env after the uevent loop has read `lines`, starting from `env`. */
  function UeventEnv(env: map<string, string>, lines: seq<string>): map<string, string>
    decreases |lines|
  {
    if lines == [] then env
    else UeventStep(UeventEnv(env, lines[..|lines| - 1]), lines[|lines| - 1])
  }

  /** The line assigns key `k`. */
  predicate UeventAssigns(line: string, k: string) {
    UeventPair(line).Some? && UeventPair(line).value.0 == k
  }

  /** Last wins: the value of `k` is the value of the last line assigning it. */
  lemma {:induction false} UeventLastWins(env: map<string, string>, lines: seq<string>, i: nat, k: string, v: string)
    requires i < |lines| && '=' !in k && lines[i] == k + "=" + v
    requires forall j :: i < j < |lines| ==> !UeventAssigns(lines[j], k)
    ensures k in UeventEnv(env, lines) && UeventEnv(env, lines)[k] == v
    decreases |lines|
  {
    var n := |lines|;
    var init := lines[..n - 1];
    if i == n - 1 {
      UeventPairOfLine(k, v);
    } else {
      UeventLastWins(env, init, i, k, v);
      assert !UeventAssigns(lines[n - 1], k);
    }
  }

  /** A key no line assigns keeps whatever `env` had for it (lines without
      '=' in particular change nothing). */
  lemma {:induction false} UeventUntouched(env: map<string, string>, lines: seq<string>, k: string)
    requires forall j :: 0 <= j < |lines| ==> !UeventAssigns(lines[j], k)
    ensures (k in UeventEnv(env, lines)) == (k in env)
    ensures k in env ==> UeventEnv(env, lines)[k] == env[k]
    decreases |lines|
  {
    if lines != [] {
      UeventUntouched(env, lines[..|lines| - 1], k);
    }
  }

  /** One line adds its key, if it has one, and no other. */
  lemma UeventStepKeys(env: map<string, string>, line: string, k: string)
    ensures k in UeventStep(env, line) <==> k in env || UeventAssigns(line, k)
  {
  }

  /** The keys after the loop are the old keys and the keys of the lines. */
  lemma {:induction false} UeventKeys(env: map<string, string>, lines: seq<string>, k: string)
    ensures k in UeventEnv(env, lines) <==>
      k in env || exists j :: 0 <= j < |lines| && UeventAssigns(lines[j], k)
    decreases |lines|
  {
    if lines != [] {
      var n := |lines|;
      var init := lines[..n - 1];
      var last := lines[n - 1];
      UeventKeys(env, init, k);
      assert UeventEnv(env, lines) == UeventStep(UeventEnv(env, init), last);
      UeventStepKeys(UeventEnv(env, init), last, k);
      if exists j :: 0 <= j < n - 1 && UeventAssigns(init[j], k) {
        var j :| 0 <= j < n - 1 && UeventAssigns(init[j], k);
        assert lines[j] == init[j];
      }
      if exists j :: 0 <= j < n && UeventAssigns(lines[j], k) {
        var j :| 0 <= j < n && UeventAssigns(lines[j], k);
        if j < n - 1 { assert init[j] == lines[j]; }
      }
    }
  }

  // ---------------------------------------------------------------------
  // udev database lines

  /** How a `LETTER:VALUE` line of a udev database record is read. */
  datatype UdevLine =
    | Initialized(usec: string)               // I:<usec>
    | Tag(tag: string)                        // G:<tag>
    | Property(key: string, value: string)    // E:<key>=<value>
    | Skipped                                 // anything else

  /** Split at the first ':', dispatch on the letter; an `E:` value is split
      again at its first '='. */
  function ParseUdevLine(line: string): (r: UdevLine)
    ensures !r.Skipped? ==> |line| >= 2 && line[1] == ':' && line[0] in "IGE"
    ensures r.Property? ==> '=' !in r.key
  {
    var (letter, value, found) := Cut(line, ':');
    if !found then Skipped
    else if letter == "I" then Initialized(value)
    else if letter == "G" then Tag(value)
    else if letter == "E" then
      (var (key, v, ok) := Cut(value, '=');
       if ok then Property(key, v) else Skipped)
    else Skipped
  }

  /** A line `L:value` is cut into the letter and the whole value. */
  lemma LetterLine(letter: char, value: string)
    requires letter != ':'
    ensures Cut([letter, ':'] + value, ':') == ([letter], value, true)
  {
    var s := [letter, ':'] + value;
    assert s[1..] == [':'] + value;
    assert s[1..][1..] == value;
    assert Cut(s[1..], ':') == ("", value, true);
    assert [letter] + "" == [letter];
  }

  /** The line that a read record came from. */
  function FormatUdevLine(r: UdevLine): string
    requires !r.Skipped?
  {
    match r
    case Initialized(usec) => "I:" + usec
    case Tag(tag) => "G:" + tag
    case Property(key, value) => "E:" + (key + "=" + value)
  }

  /** An `I:` line reads as its timestamp. */
  lemma ParseInitialized(usec: string)
    ensures ParseUdevLine("I:" + usec) == Initialized(usec)
  {
    LetterLine('I', usec);
    assert "I:" == ['I', ':'];
  }

  /** A `G:` line reads as its tag. */
  lemma ParseTag(tag: string)
    ensures ParseUdevLine("G:" + tag) == Tag(tag)
  {
    LetterLine('G', tag);
    assert "G:" == ['G', ':'];
    assert ['G'] != "I";
  }

  /** An `E:` line reads as its property, the key ending at the first '='. */
  lemma ParseProperty(key: string, value: string)
    requires '=' !in key
    ensures ParseUdevLine("E:" + (key + "=" + value)) == Property(key, value)
  {
    var rest := key + "=" + value;
    LetterLine('E', rest);
    assert "E:" == ['E', ':'];
    assert ['E'] != "I" && ['E'] != "G";
    assert rest == key + ['='] + value;
    CutJoin(key, '=', value);
  }

  /** A record written out as a line is read back as the same record. */
  lemma ParseFormat(r: UdevLine)
    requires !r.Skipped?
    requires r.Property? ==> '=' !in r.key
    ensures ParseUdevLine(FormatUdevLine(r)) == r
  {
    match r
    case Initialized(usec) => ParseInitialized(usec);
    case Tag(tag) => ParseTag(tag);
    case Property(key, value) => ParseProperty(key, value);
  }

  /** A line that is not skipped is exactly the written form of its record:
      it starts with "I:", "G:" or "E:" and nothing else alters it. */
  lemma FormatParse(line: string)
    requires !ParseUdevLine(line).Skipped?
    ensures FormatUdevLine(ParseUdevLine(line)) == line
  {
    var (letter, value, _) := Cut(line, ':');
    assert line == letter + [':'] + value;
    assert letter == "I" || letter == "G" || letter == "E";
    assert letter + [':'] == [letter[0], ':'];
    if letter == "E" {
      var (key, v, _) := Cut(value, '=');
      assert value == key + "=" + v;
      assert line == "E:" + (key + "=" + v);
    } else if letter == "I" {
      assert line == "I:" + value;
    } else {
      assert line == "G:" + value;
    }
  }

  /** Lines without ':' and letters other than I, G and E are skipped. */
  lemma SkippedLines(line: string)
    ensures ':' !in line ==> ParseUdevLine(line).Skipped?
    ensures (':' in line && Cut(line, ':').0 !in {"I", "G", "E"}) ==> ParseUdevLine(line).Skipped?
    ensures (':' in line && Cut(line, ':').0 == "E" && '=' !in Cut(line, ':').1) ==> ParseUdevLine(line).Skipped?
  {
  }

  /** The value of UsecInitialized after reading `lines`, starting at `usec`. */
  function UdevUsec(usec: string, lines: seq<string>): string
    decreases |lines|
  {
    if lines == [] then usec
    else
      match ParseUdevLine(lines[|lines| - 1])
      case Initialized(u) => u
      case _ => UdevUsec(usec, lines[..|lines| - 1])
  }

  /** The tag one line appends: its value for a `G:` line, none otherwise. */
  function TagOf(line: string): seq<string> {
    match ParseUdevLine(line)
    case Tag(t) => [t]
    case _ => []
  }

  /** What `f` appends for each of `lines`, from first to last. */
  function ConcatMap(f: string -> seq<string>, lines: seq<string>): seq<string>
    decreases |lines|
  {
    if lines == [] then []
    else ConcatMap(f, lines[..|lines| - 1]) + f(lines[|lines| - 1])
  }

  /** Runs of lines append their results in order. */
  lemma {:induction false} ConcatMapAppend(f: string -> seq<string>, a: seq<string>, b: seq<string>)
    ensures ConcatMap(f, a + b) == ConcatMap(f, a) + ConcatMap(f, b)
    decreases |b|
  {
    if b == [] {
      assert a + b == a;
    } else {
      var ab := a + b;
      var b' := b[..|b| - 1];
      assert ab[..|ab| - 1] == a + b';
      assert ab[|ab| - 1] == b[|b| - 1];
      ConcatMapAppend(f, a, b');
    }
  }

  /** The tags appended while reading `lines`, in the order read. */
  function UdevTags(lines: seq<string>): seq<string> {
    ConcatMap(TagOf, lines)
  }

  /** Env after reading `lines`, starting at `env`. */
  function UdevEnv(env: map<string, string>, lines: seq<string>): map<string, string>
    decreases |lines|
  {
    if lines == [] then env
    else
      var before := UdevEnv(env, lines[..|lines| - 1]);
      match ParseUdevLine(lines[|lines| - 1])
      case Property(k, v) => before[k := v]
      case _ => before
  }

  /** Last wins for `I:`: after the last `I:` line UsecInitialized is its
      value ... */
  lemma {:induction false} UdevUsecLastWins(usec: string, lines: seq<string>, i: nat, v: string)
    requires i < |lines| && lines[i] == "I:" + v
    requires forall j :: i < j < |lines| ==> !ParseUdevLine(lines[j]).Initialized?
    ensures UdevUsec(usec, lines) == v
    decreases |lines|
  {
    var n := |lines|;
    if i == n - 1 {
      ParseFormat(Initialized(v));
    } else {
      UdevUsecLastWins(usec, lines[..n - 1], i, v);
    }
  }

  /** ... and without any `I:` line it keeps its old value. */
  lemma {:induction false} UdevUsecUntouched(usec: string, lines: seq<string>)
    requires forall j :: 0 <= j < |lines| ==> !ParseUdevLine(lines[j]).Initialized?
    ensures UdevUsec(usec, lines) == usec
    decreases |lines|
  {
    if lines != [] {
      UdevUsecUntouched(usec, lines[..|lines| - 1]);
    }
  }

  /** The tags of consecutive runs of lines are appended in order. */
  lemma UdevTagsAppend(a: seq<string>, b: seq<string>)
    ensures UdevTags(a + b) == UdevTags(a) + UdevTags(b)
  {
    ConcatMapAppend(TagOf, a, b);
  }

  /** The `G:` lines that carry the given tags. */
  function TagLines(tags: seq<string>): seq<string> {
    seq(|tags|, i requires 0 <= i < |tags| => "G:" + tags[i])
  }

  /** Writing tags as `G:` lines and reading them back gives the same tags,
      duplicates and order included. */
  lemma {:induction false} UdevTagsOfTagLines(tags: seq<string>)
    ensures UdevTags(TagLines(tags)) == tags
    decreases |tags|
  {
    if tags != [] {
      var n := |tags|;
      var lines := TagLines(tags);
      assert lines[..n - 1] == TagLines(tags[..n - 1]);
      UdevTagsOfTagLines(tags[..n - 1]);
      ParseFormat(Tag(tags[n - 1]));
      assert tags == tags[..n - 1] + [tags[n - 1]];
    }
  }

  /** A string is a tag after reading `lines` exactly when some line is
      `G:` followed by it. */
  lemma {:induction false} UdevTagsMembers(lines: seq<string>, t: string)
    ensures t in UdevTags(lines) <==> exists j :: 0 <= j < |lines| && lines[j] == "G:" + t
    decreases |lines|
  {
    if lines != [] {
      var n := |lines|;
      var init := lines[..n - 1];
      var line := "G:" + t;
      UdevTagsMembers(init, t);
      ParseFormat(Tag(t));
      if lines[n - 1] == line {
        assert UdevTags(lines) == UdevTags(init) + [t];
      } else {
        if ParseUdevLine(lines[n - 1]) == Tag(t) {
          FormatParse(lines[n - 1]);
        }
        assert t in UdevTags(lines) <==> t in UdevTags(init);
        if exists j :: 0 <= j < n && lines[j] == line {
          var j :| 0 <= j < n && lines[j] == line;
          assert init[j] == line;
        }
        if exists j :: 0 <= j < n - 1 && init[j] == line {
          var j :| 0 <= j < n - 1 && init[j] == line;
          assert lines[j] == line;
        }
      }
    }
  }

  /** The line sets key `k` in Env. */
  predicate UdevAssigns(line: string, k: string) {
    ParseUdevLine(line).Property? && ParseUdevLine(line).key == k
  }

  /** A last line that does not assign `k` leaves `k` as it was. */
  lemma UdevEnvLastOther(env: map<string, string>, lines: seq<string>, k: string)
    requires lines != [] && !UdevAssigns(lines[|lines| - 1], k)
    ensures (k in UdevEnv(env, lines)) == (k in UdevEnv(env, lines[..|lines| - 1]))
    ensures k in UdevEnv(env, lines) ==> UdevEnv(env, lines)[k] == UdevEnv(env, lines[..|lines| - 1])[k]
  {
  }

  /** A last line `E:k=v` sets `k` to `v`. */
  lemma UdevEnvLastHit(env: map<string, string>, lines: seq<string>, k: string, v: string)
    requires lines != [] && '=' !in k && lines[|lines| - 1] == "E:" + (k + "=" + v)
    ensures k in UdevEnv(env, lines) && UdevEnv(env, lines)[k] == v
  {
    ParseFormat(Property(k, v));
  }

  /** Last wins for `E:`: the value of `k` is that of the last `E:k=...`
      line, whatever `env` held before (in particular a uevent value). */
  lemma {:induction false} UdevEnvLastWins(env: map<string, string>, lines: seq<string>, i: nat, k: string, v: string)
    requires i < |lines| && '=' !in k && lines[i] == "E:" + (k + "=" + v)
    requires forall j :: i < j < |lines| ==> !UdevAssigns(lines[j], k)
    ensures k in UdevEnv(env, lines) && UdevEnv(env, lines)[k] == v
    decreases |lines|
  {
    var n := |lines|;
    if i == n - 1 {
      UdevEnvLastHit(env, lines, k, v);
    } else {
      var init := lines[..n - 1];
      assert forall j :: i < j < |init| ==> init[j] == lines[j];
      UdevEnvLastWins(env, init, i, k, v);
      UdevEnvLastOther(env, lines, k);
    }
  }

  /** A key no `E:` line assigns keeps what `env` had for it. */
  lemma {:induction false} UdevEnvUntouched(env: map<string, string>, lines: seq<string>, k: string)
    requires forall j :: 0 <= j < |lines| ==> !UdevAssigns(lines[j], k)
    ensures (k in UdevEnv(env, lines)) == (k in env)
    ensures k in env ==> UdevEnv(env, lines)[k] == env[k]
    decreases |lines|
  {
    if lines != [] {
      UdevEnvUntouched(env, lines[..|lines| - 1], k);
      UdevEnvLastOther(env, lines, k);
    }
  }

}
