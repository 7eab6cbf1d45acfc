/** The companion's settings file: typed sections inside a table that also holds other keys. */
module LocalConfig {
  import opened Options
  import opened TomlTables

  /** What a managed key may hold. */
  datatype Kind = Switch | Count | Ratio | Words

  datatype Field = Field(kind: Kind, initial: Scalar)

  type Fields = map<string, Field>

  /** The managed sections and their keys. */
  type Schema = map<string, Fields>

  type Section = map<string, Scalar>

  type Settings = map<string, Section>

  const VIDEO: Fields := map["codec" := Field(Words, Text("h265"))]

  const SLEEP_MODE: Fields := map["enabled" := Field(Switch, Flag(true)), "timeout_seconds" := Field(Count, Number(300))]

  const FACE_TRACKING: Fields := map["enabled" := Field(Switch, Flag(true)), "smoothing" := Field(Ratio, Fraction(0.6))]

  const RECORDING: Fields := map["enabled" := Field(Switch, Flag(false)), "output_dir" := Field(Words, Text(""))]

  const AUDIO: Fields := map["enabled" := Field(Switch, Flag(true)), "bitrate_kbps" := Field(Count, Number(128))]

  const DEPLOY: Fields := map["apk_path" := Field(Words, Text(""))]

  /** Six sections are the companion's own; every other key of the file is foreign to it. */
  const MANAGED: Schema := map[
    "video" := VIDEO, "sleep_mode" := SLEEP_MODE, "face_tracking" := FACE_TRACKING,
    "recording" := RECORDING, "audio" := AUDIO, "deploy" := DEPLOY
  ]

  // ---- reading ----

  /** A value as a setting of the given kind; a whole number is read as a ratio too. */
  function Read(kind: Kind, v: Value): Option<Scalar> {
    match (kind, v)
    case (Switch, Leaf(Flag(_))) => Some(v.scalar)
    case (Count, Leaf(Number(n))) => if 0 <= n < 0x1_0000_0000 then Some(v.scalar) else None
    case (Ratio, Leaf(Fraction(_))) => Some(v.scalar)
    case (Ratio, Leaf(Number(n))) => Some(Fraction(n as real))
    case (Words, Leaf(Text(_))) => Some(v.scalar)
    case _ => None
  }

  function ReadField(f: Field, v: Option<Value>): Option<Scalar> {
    if v.Some? then Read(f.kind, v.value) else Some(f.initial)
  }

  predicate SectionReads(fields: Fields, t: Tab) {
    forall key :: key in fields ==> ReadField(fields[key], Get(t, key)).Some?
  }

  function ReadSection(fields: Fields, t: Tab): Section
    requires SectionReads(fields, t)
  {
    map key | key in fields :: ReadField(fields[key], Get(t, key)).value
  }

  /** A section may be absent; otherwise it is a table whose managed keys have their types. */
  predicate SectionLoads(fields: Fields, v: Option<Value>) {
    v.Some? ==> v.value.Table? && SectionReads(fields, v.value.entries)
  }

  function Entries(v: Option<Value>): Tab {
    if v.Some? && v.value.Table? then v.value.entries else map[]
  }

  predicate Loads(schema: Schema, t: Tab) {
    forall s :: s in schema ==> SectionLoads(schema[s], Get(t, s))
  }

  function Defaults(schema: Schema): Settings {
    map s | s in schema :: ReadSection(schema[s], map[])
  }

  /** The settings in a table: the defaults for all if any managed key has the wrong type. */
  function LoadTable(schema: Schema, t: Tab): Settings {
    if Loads(schema, t) then map s | s in schema :: ReadSection(schema[s], Entries(Get(t, s)))
    else Defaults(schema)
  }

  /** The file on disk. */
  datatype File = Missing | Malformed | Parsed(table: Tab)

  function Contents(file: File): Tab {
    if file.Parsed? then file.table else map[]
  }

  function Load(schema: Schema, file: File): Settings {
    if file.Parsed? then LoadTable(schema, file.table) else Defaults(schema)
  }

  /** The settings at start: the defaults too if the file is there and cannot be read. */
  function LoadFrom(schema: Schema, file: File, canRead: bool): Settings {
    if canRead then Load(schema, file) else Defaults(schema)
  }

  predicate FileLoads(schema: Schema, file: File) {
    Loads(schema, Contents(file))
  }

  lemma LoadIsLoadTable(schema: Schema, file: File)
    ensures Load(schema, file) == LoadTable(schema, Contents(file))
  {
  }

  // ---- writing ----

  /** What the disk allows at the moment of a save. */
  datatype Disk = Disk(canRead: bool, canBackUp: bool, canWrite: bool)

  /** The file as a table, or nothing if it must not be overwritten. */
  function ReadTable(file: File, disk: Disk): Option<Tab> {
    match file
    case Missing => Some(map[])
    case Malformed => if disk.canRead && disk.canBackUp then Some(map[]) else None
    case Parsed(t) => if disk.canRead then Some(t) else None
  }

  function SectionTable(section: Section): Tab {
    map key | key in section :: Leaf(section[key])
  }

  function Ours(config: Settings, sections: seq<string>): Tab {
    map s | s in config && s in sections :: Table(SectionTable(config[s]))
  }

  function Saved(file: File, config: Settings, sections: seq<string>, disk: Disk): Option<File> {
    var table := ReadTable(file, disk);
    if table.None? || !disk.canWrite then None else Some(Parsed(Merge(table.value, Ours(config, sections))))
  }

  method SaveTo(config: Settings, file: File, sections: seq<string>, disk: Disk) returns (written: Option<File>)
    ensures written == Saved(file, config, sections, disk)
  {
    var table := ReadTable(file, disk);
    if table.None? {
      return None;
    }
    var ours := Ours(config, sections);
    var merged := MergeTables(table.value, ours);
    return if disk.canWrite then Some(Parsed(merged)) else None;
  }

  predicate Emptied(fields: Fields, v: Value) {
    v.Table? && v.entries.Keys <= fields.Keys
  }

  function Stripped(fields: Fields, v: Value): Value {
    if v.Table? then Table(v.entries - fields.Keys) else v
  }

  /** The table without the managed keys and without the managed sections that leaves empty. */
  function Cleared(schema: Schema, t: Tab): Tab {
    map s | s in t && !(s in schema && Emptied(schema[s], t[s])) ::
      if s in schema then Stripped(schema[s], t[s]) else t[s]
  }

  /** One section's keys, removed one after the other. */
  method StripSection(fields: Fields, entries: Tab) returns (rest: Tab)
    ensures rest == entries - fields.Keys
  {
    rest := entries;
    var todo := fields.Keys;
    while todo != {}
      invariant todo <= fields.Keys
      invariant rest == entries - (fields.Keys - todo)
      decreases |todo|
    {
      var key :| key in todo;
      rest := rest - {key};
      todo := todo - {key};
    }
  }

  lemma StripsToNothing(fields: Fields, entries: Tab)
    ensures entries - fields.Keys == map[] <==> entries.Keys <= fields.Keys
  {
    var rest := entries - fields.Keys;
    if key :| key in entries && key !in fields {
      assert key in rest;
    } else {
      assert forall key :: key !in rest;
    }
  }

  method ClearTable(schema: Schema, t: Tab) returns (cleared: Tab)
    ensures cleared == Cleared(schema, t)
  {
    cleared := t;
    var todo := schema.Keys;
    while todo != {}
      invariant todo <= schema.Keys
      invariant forall s :: Get(cleared, s) == if s in todo then Get(t, s) else Get(Cleared(schema, t), s)
      decreases |todo|
    {
      var s :| s in todo;
      assert Get(cleared, s) == Get(t, s);
      if s in cleared && cleared[s].Table? {
        var rest := StripSection(schema[s], cleared[s].entries);
        StripsToNothing(schema[s], t[s].entries);
        cleared := if rest == map[] then cleared - {s} else cleared[s := Table(rest)];
      }
      todo := todo - {s};
    }
    SameTable(cleared, Cleared(schema, t));
  }

  function ClearedFile(schema: Schema, file: File, disk: Disk): Option<File> {
    var table := ReadTable(file, disk);
    if table.None? || !disk.canWrite then None else Some(Parsed(Cleared(schema, table.value)))
  }

  method ClearFrom(schema: Schema, file: File, disk: Disk) returns (written: Option<File>)
    ensures written == ClearedFile(schema, file, disk)
  {
    var table := ReadTable(file, disk);
    if table.None? {
      return None;
    }
    var cleared := ClearTable(schema, table.value);
    return if disk.canWrite then Some(Parsed(cleared)) else None;
  }

  // ---- what saving and clearing do to what is loaded ----

  predicate SectionTyped(fields: Fields, section: Section) {
    section.Keys == fields.Keys && forall key :: key in fields ==> Read(fields[key].kind, Leaf(section[key])) == Some(section[key])
  }

  /** Every managed key is there, with a value of its type. */
  predicate Typed(schema: Schema, config: Settings) {
    config.Keys == schema.Keys && forall s :: s in schema ==> SectionTyped(schema[s], config[s])
  }

  predicate FieldsSound(fields: Fields) {
    forall key :: key in fields ==> Read(fields[key].kind, Leaf(fields[key].initial)) == Some(fields[key].initial)
  }

  /** The defaults have the types they should. */
  predicate Sound(schema: Schema) {
    forall s :: s in schema ==> FieldsSound(schema[s])
  }

  lemma DefaultsTyped(schema: Schema)
    requires Sound(schema)
    ensures Typed(schema, Defaults(schema))
  {
    forall s | s in schema
      ensures SectionTyped(schema[s], Defaults(schema)[s])
    {
      assert FieldsSound(schema[s]);
    }
  }

  lemma ManagedIsSound()
    ensures Sound(MANAGED)
  {
    StreamSectionsSound();
    OutputSectionsSound();
  }

  lemma StreamSectionsSound()
    ensures FieldsSound(VIDEO) && FieldsSound(SLEEP_MODE) && FieldsSound(FACE_TRACKING)
  {
  }

  lemma OutputSectionsSound()
    ensures FieldsSound(RECORDING) && FieldsSound(AUDIO) && FieldsSound(DEPLOY)
  {
  }

  /** A saved section reads back as it was, whatever the table had there. */
  lemma SavedSection(fields: Fields, section: Section, under: Option<Value>)
    requires SectionTyped(fields, section)
    ensures
      var v := Overlaid(under, Table(SectionTable(section)));
      SectionLoads(fields, Some(v)) && ReadSection(fields, Entries(Some(v))) == section
  {
    var ours := SectionTable(section);
    var v := Overlaid(under, Table(ours));
    OverlaidIs(under, Table(ours));
    forall key | key in fields
      ensures Get(v.entries, key) == Some(Leaf(section[key]))
    {
      MergeAt(Entries(under), ours, key);
    }
    assert forall key :: key in fields ==> ReadField(fields[key], Get(v.entries, key)) == Some(section[key]);
  }

  lemma SavedEntry(t: Tab, config: Settings, sections: seq<string>, s: string)
    ensures
      Get(Merge(t, Ours(config, sections)), s)
      == if s in config && s in sections then Some(Overlaid(Get(t, s), Table(SectionTable(config[s])))) else Get(t, s)
  {
  }

  /**
   * After a save the file loads exactly if every section not saved had its types, and then each saved
   * section is the one saved and every other is what it was.
   */
  lemma SaveThenLoad(schema: Schema, t: Tab, config: Settings, sections: seq<string>)
    requires Typed(schema, config)
    ensures
      var t' := Merge(t, Ours(config, sections));
      && (Loads(schema, t') <==> forall s :: s in schema && s !in sections ==> SectionLoads(schema[s], Get(t, s)))
      && (Loads(schema, t') ==> forall s :: s in schema ==>
            LoadTable(schema, t')[s] == if s in sections then config[s] else ReadSection(schema[s], Entries(Get(t, s))))
  {
    var t' := Merge(t, Ours(config, sections));
    forall s | s in schema
      ensures s in sections ==> SectionLoads(schema[s], Get(t', s)) && ReadSection(schema[s], Entries(Get(t', s))) == config[s]
      ensures s !in sections ==> Get(t', s) == Get(t, s)
    {
      SavedEntry(t, config, sections, s);
      if s in sections {
        SavedSection(schema[s], config[s], Get(t, s));
      }
    }
  }

  lemma ClearedFileLoads(schema: Schema, file: File, disk: Disk)
    requires FileLoads(schema, file) && ClearedFile(schema, file, disk).Some?
    ensures
      var cleared := ClearedFile(schema, file, disk).value;
      FileLoads(schema, cleared) && Load(schema, cleared) == Defaults(schema)
  {
    ClearThenLoad(schema, Contents(file));
  }

  /** After clearing, the defaults apply, whatever the table had. */
  lemma ClearThenLoad(schema: Schema, t: Tab)
    ensures LoadTable(schema, Cleared(schema, t)) == Defaults(schema)
    ensures Loads(schema, t) ==> Loads(schema, Cleared(schema, t))
  {
    var t' := Cleared(schema, t);
    forall s | s in schema && (s in t' ==> t'[s].Table?)
      ensures SectionLoads(schema[s], Get(t', s)) && ReadSection(schema[s], Entries(Get(t', s))) == ReadSection(schema[s], map[])
    {
      forall key | key in schema[s]
        ensures Get(Entries(Get(t', s)), key) == None
      {
      }
    }
    if Loads(schema, t) {
      forall s | s in schema && s in t'
        ensures t'[s].Table?
      {
        assert SectionLoads(schema[s], Get(t, s));
      }
    }
  }

  // ---- keys the companion does not manage ----

  /** A path that leads to, or through, no managed key. */
  predicate Foreign(schema: Schema, path: Path) {
    path != [] && (path[0] in schema ==> |path| >= 2 && path[1] !in schema[path[0]])
  }

  /** A save leaves every foreign path leading where it led. */
  lemma SaveKeepsForeign(schema: Schema, t: Tab, config: Settings, sections: seq<string>, path: Path)
    requires Typed(schema, config) && Foreign(schema, path)
    ensures Look(Merge(t, Ours(config, sections)), path) == Look(t, path)
  {
    var ours := Ours(config, sections);
    if path[0] in ours {
      assert SectionTyped(schema[path[0]], config[path[0]]);
      assert path[1..][0] == path[1];
      assert !Touches(ours[path[0]], path[1..]);
    }
    BaseKept(t, ours, path);
  }

  /** Clearing leaves every foreign path leading where it led, and no managed key is left. */
  lemma ClearIsExact(schema: Schema, t: Tab, path: Path)
    requires Foreign(schema, path) || |path| >= 2
    ensures Look(Cleared(schema, t), path) == if Foreign(schema, path) then Look(t, path) else None
  {
    var t' := Cleared(schema, t);
    LookStep(t, path);
    LookStep(t', path);
    var s := path[0];
    if s in schema && s in t && t[s].Table? {
      var rest := path[1..];
      assert rest[0] == path[1];
      LookStep(t[s].entries, rest);
      if s in t' {
        LookStep(t'[s].entries, rest);
      }
    }
  }

  /** No managed section is left behind as an empty table, and one goes only if it held nothing else. */
  lemma ClearLeavesNoEmptySection(schema: Schema, t: Tab, s: string)
    requires s in schema
    ensures s in Cleared(schema, t) ==> Cleared(schema, t)[s] != Table(map[])
    ensures s in t && s !in Cleared(schema, t) ==>
      t[s].Table? && forall key :: key in t[s].entries ==> key in schema[s]
  {
    if s in t && t[s].Table? && s in Cleared(schema, t) {
      var key :| key in t[s].entries && key !in schema[s];
      assert key in Cleared(schema, t)[s].entries;
    }
  }

  /** Which values a field of each kind takes, and as what: an integer will do for a fraction, no other kind converts. */
  lemma ReadExactly(kind: Kind, v: Value)
    ensures
      Read(kind, v) ==
      match v
      case Table(_) => None
      case Leaf(Flag(b)) => if kind == Switch then Some(Flag(b)) else None
      case Leaf(Text(w)) => if kind == Words then Some(Text(w)) else None
      case Leaf(Fraction(x)) => if kind == Ratio then Some(Fraction(x)) else None
      case Leaf(Number(n)) =>
        if kind == Ratio then Some(Fraction(n as real))
        else if kind == Count && n >= 0 && n <= 4294967295 then Some(Number(n)) else None
      case _ => None
  {
  }
}
