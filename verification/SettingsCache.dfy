/** The companion's settings as a write-back cache over local.toml. */
module SettingsCache {
  import opened Options
  import opened TomlTables
  import opened LocalConfig

  /** Milliseconds. */
  type Instant = int

  const SAVE_DEBOUNCE: int := 500
  const SAVE_RETRY: int := 5000

  /** A change waiting to be saved: its section, and what to log once it is. */
  datatype Note = Note(section: string, text: string)

  datatype App = App(config: Settings, dirtySince: Option<Instant>, notes: seq<Note>, failing: bool,
                     log: seq<string>, file: File)

  datatype Op =
    | Edit(section: string, values: Section, text: string, now: Instant)
    | Flush(now: Instant, disk: Disk)
    | Tick(now: Instant, disk: Disk)
    | Reset(disk: Disk)

  function Without(notes: seq<Note>, section: string): seq<Note> {
    if notes == [] then []
    else
      var rest := Without(notes[..|notes| - 1], section);
      var last := notes[|notes| - 1];
      if last.section != section then rest + [last] else rest
  }

  function Sections(notes: seq<Note>): (sections: seq<string>)
    ensures |sections| == |notes|
    ensures forall i :: 0 <= i < |notes| ==> sections[i] == notes[i].section
  {
    if notes == [] then [] else Sections(notes[..|notes| - 1]) + [notes[|notes| - 1].section]
  }

  function Texts(notes: seq<Note>): (texts: seq<string>)
    ensures |texts| == |notes|
    ensures forall i :: 0 <= i < |notes| ==> texts[i] == notes[i].text
  {
    if notes == [] then [] else Texts(notes[..|notes| - 1]) + [notes[|notes| - 1].text]
  }

  predicate Pending(app: App, section: string) {
    section in Sections(app.notes)
  }

  function Start(schema: Schema, file: File, canRead: bool): App {
    App(LoadFrom(schema, file, canRead), None, [], false, [], file)
  }

  function SaveDue(dirtySince: Option<Instant>, now: Instant): bool {
    dirtySince.Some? && now - dirtySince.value >= SAVE_DEBOUNCE
  }

  function Flushed(app: App, now: Instant, disk: Disk): App {
    if app.dirtySince.None? then app
    else
      match Saved(app.file, app.config, Sections(app.notes), disk)
      case Some(file) =>
        var log := if app.failing then app.log + ["Settings saved after all"] else app.log;
        App(app.config, None, [], false, log + Texts(app.notes), file)
      case None =>
        var log := if app.failing then app.log else app.log + ["Failed to save config"];
        App(app.config, Some(now + (SAVE_RETRY - SAVE_DEBOUNCE)), app.notes, true, log, app.file)
  }

  function ResetOutcome(schema: Schema, app: App, disk: Disk): App {
    match ClearedFile(schema, app.file, disk)
    case Some(file) => App(Defaults(schema), None, [], app.failing, app.log + ["Settings reset to defaults"], file)
    case None =>
      App(Defaults(schema), None, [], app.failing, app.log + ["Reset applied in-memory but save failed"], app.file)
  }

  function Step(schema: Schema, app: App, op: Op): App {
    match op
    case Edit(section, values, text, now) =>
      App(app.config[section := values], Some(now), Without(app.notes, section) + [Note(section, text)],
          app.failing, app.log, app.file)
    case Flush(now, disk) => Flushed(app, now, disk)
    case Tick(now, disk) => if SaveDue(app.dirtySince, now) then Flushed(app, now, disk) else app
    case Reset(disk) => ResetOutcome(schema, app, disk)
  }

  function RunOps(schema: Schema, app: App, ops: seq<Op>): App
    decreases |ops|
  {
    if ops == [] then app else Step(schema, RunOps(schema, app, ops[..|ops| - 1]), ops[|ops| - 1])
  }

  // ---- the invariant ----

  /** Memory and file agree on a section. */
  predicate InStep(schema: Schema, app: App, s: string)
    requires s in schema && s in app.config
  {
    Load(schema, app.file)[s] == app.config[s]
  }

  predicate Distinct(notes: seq<Note>) {
    forall i, j :: 0 <= i < j < |notes| ==> notes[i].section != notes[j].section
  }

  /** A save is due some time exactly when something waits, once per section. */
  predicate Queued(schema: Schema, app: App) {
    && (app.dirtySince.Some? <==> app.notes != [])
    && Distinct(app.notes) && (forall s :: s in Sections(app.notes) ==> s in schema)
  }

  /** The sections the file does not give the default of. */
  function Differing(schema: Schema, file: File): set<string> {
    set s | s in schema && Load(schema, file)[s] != Defaults(schema)[s]
  }

  /** Of the sections with nothing pending, exactly those in `apart` differ from the file, and they are at the defaults. */
  predicate Valid(schema: Schema, app: App, apart: set<string>) {
    && Typed(schema, app.config)
    && FileLoads(schema, app.file)
    && Queued(schema, app)
    && (forall s :: s in schema && !Pending(app, s) ==> (InStep(schema, app, s) <==> s !in apart))
    && (forall s :: s in apart ==> s in schema && !Pending(app, s) && app.config[s] == Defaults(schema)[s])
  }

  /** Edits change one managed section to typed values. */
  predicate Orderly(schema: Schema, op: Op) {
    op.Edit? ==> op.section in schema && SectionTyped(schema[op.section], op.values)
  }

  /** The sections apart after a step: an edit takes one back, a reset starts afresh, a flush changes nothing. */
  function ApartAfter(schema: Schema, file: File, apart: set<string>, op: Op): set<string> {
    match op
    case Edit(section, _, _, _) => apart - {section}
    case Reset(disk) => if ClearedFile(schema, file, disk).Some? then {} else Differing(schema, file)
    case _ => apart
  }

  lemma {:induction false} WithoutSections(notes: seq<Note>, section: string, s: string)
    ensures s in Sections(Without(notes, section)) <==> s in Sections(notes) && s != section
    decreases |notes|
  {
    if notes != [] {
      var init, last := notes[..|notes| - 1], notes[|notes| - 1];
      WithoutSections(init, section, s);
      assert s in Sections(notes) <==> s in Sections(init) || s == last.section;
      var rest := Without(init, section);
      assert (rest + [last])[..|rest|] == rest;
      assert s in Sections(rest + [last]) <==> s in Sections(rest) || s == last.section;
    }
  }

  lemma {:induction false} WithoutDistinct(notes: seq<Note>, section: string)
    requires Distinct(notes)
    ensures Distinct(Without(notes, section))
    decreases |notes|
  {
    if notes != [] {
      var init, last := notes[..|notes| - 1], notes[|notes| - 1];
      WithoutDistinct(init, section);
      WithoutSections(init, section, last.section);
      var rest := Without(init, section);
      assert last.section !in Sections(init);
      forall i | 0 <= i < |rest|
        ensures rest[i].section != last.section
      {
        assert Sections(rest)[i] == rest[i].section;
      }
    }
  }

  lemma MarkedSections(notes: seq<Note>, section: string, text: string, s: string)
    ensures s in Sections(Without(notes, section) + [Note(section, text)]) <==> s in Sections(notes) || s == section
  {
    var rest := Without(notes, section);
    WithoutSections(notes, section, s);
    assert (rest + [Note(section, text)])[..|rest|] == rest;
  }

  lemma MarkedDistinct(notes: seq<Note>, section: string, text: string)
    requires Distinct(notes)
    ensures Distinct(Without(notes, section) + [Note(section, text)])
  {
    var rest := Without(notes, section);
    WithoutDistinct(notes, section);
    forall i | 0 <= i < |rest|
      ensures rest[i].section != section
    {
      WithoutSections(notes, section, rest[i].section);
      assert Sections(rest)[i] == rest[i].section;
    }
  }

  lemma EditQueues(schema: Schema, app: App, section: string, values: Section, text: string, now: Instant)
    requires Queued(schema, app) && section in schema
    ensures
      var app' := Step(schema, app, Edit(section, values, text, now));
      Queued(schema, app') && forall s :: Pending(app', s) <==> Pending(app, s) || s == section
  {
    MarkedDistinct(app.notes, section, text);
    forall s
      ensures s in Sections(Without(app.notes, section) + [Note(section, text)]) <==> s in Sections(app.notes) || s == section
    {
      MarkedSections(app.notes, section, text, s);
    }
  }

  lemma EditInStep(schema: Schema, app: App, apart: set<string>, op: Op, s: string)
    requires Valid(schema, app, apart) && op.Edit? && Orderly(schema, op) && s in schema && s != op.section
    ensures InStep(schema, Step(schema, app, op), s) <==> InStep(schema, app, s)
  {
  }

  lemma EditStaysTyped(schema: Schema, config: Settings, op: Op)
    requires Typed(schema, config) && op.Edit? && Orderly(schema, op)
    ensures Typed(schema, config[op.section := op.values])
  {
  }

  lemma EditKeeps(schema: Schema, app: App, apart: set<string>, op: Op)
    requires Valid(schema, app, apart) && op.Edit? && Orderly(schema, op)
    ensures Valid(schema, Step(schema, app, op), apart - {op.section})
  {
    EditQueues(schema, app, op.section, op.values, op.text, op.now);
    EditStaysTyped(schema, app.config, op);
    var app' := Step(schema, app, op);
    forall s | s in schema && !Pending(app', s)
      ensures InStep(schema, app', s) <==> s !in apart - {op.section}
    {
      EditInStep(schema, app, apart, op, s);
    }
  }

  lemma SavedIs(file: File, config: Settings, sections: seq<string>, disk: Disk)
    ensures
      var written := Saved(file, config, sections, disk);
      written.Some? ==> written.value == Parsed(Merge(Contents(file), Ours(config, sections)))
  {
  }

  /** A successful write leaves the pending sections as in memory and the others as in the file. */
  lemma SaveSettles(schema: Schema, app: App, disk: Disk)
    requires Typed(schema, app.config) && FileLoads(schema, app.file)
    ensures
      var written := Saved(app.file, app.config, Sections(app.notes), disk);
      written.Some? ==>
        && FileLoads(schema, written.value)
        && forall s :: s in schema ==>
             Load(schema, written.value)[s] == if Pending(app, s) then app.config[s] else Load(schema, app.file)[s]
  {
    var sections := Sections(app.notes);
    SaveThenLoad(schema, Contents(app.file), app.config, sections);
    SavedIs(app.file, app.config, sections, disk);
    LoadIsLoadTable(schema, app.file);
  }

  /** What a flush leaves in the file of one section. */
  lemma FlushSection(schema: Schema, app: App, now: Instant, disk: Disk, s: string)
    requires Typed(schema, app.config) && FileLoads(schema, app.file) && s in schema
    ensures
      var app' := Flushed(app, now, disk);
      && Load(schema, app'.file)[s]
         == (if Pending(app, s) && app'.notes != app.notes then app.config[s] else Load(schema, app.file)[s])
      && app'.config == app.config && (app'.notes == app.notes || app'.notes == [])
  {
    SaveSettles(schema, app, disk);
  }

  lemma FlushKeeps(schema: Schema, app: App, apart: set<string>, now: Instant, disk: Disk)
    requires Valid(schema, app, apart)
    ensures Valid(schema, Flushed(app, now, disk), apart)
  {
    SaveSettles(schema, app, disk);
    var app' := Flushed(app, now, disk);
    if app.dirtySince.Some? && app'.notes == [] {
      forall s | s in schema
        ensures InStep(schema, app', s) <==> s !in apart
      {
        assert !Pending(app, s) ==> (InStep(schema, app, s) <==> s !in apart);
      }
    }
  }

  lemma ResetKeeps(schema: Schema, app: App, apart: set<string>, disk: Disk)
    requires Valid(schema, app, apart) && Sound(schema)
    ensures Valid(schema, ResetOutcome(schema, app, disk), ApartAfter(schema, app.file, apart, Reset(disk)))
  {
    DefaultsTyped(schema);
    if ClearedFile(schema, app.file, disk).Some? {
      ClearedFileLoads(schema, app.file, disk);
    }
    assert Sections([]) == [];
  }

  lemma StepKeeps(schema: Schema, app: App, apart: set<string>, op: Op)
    requires Sound(schema) && Valid(schema, app, apart) && Orderly(schema, op)
    ensures Valid(schema, Step(schema, app, op), ApartAfter(schema, app.file, apart, op))
  {
    match op
    case Edit(section, values, text, now) => EditKeeps(schema, app, apart, op);
    case Flush(now, disk) => FlushKeeps(schema, app, apart, now, disk);
    case Tick(now, disk) => FlushKeeps(schema, app, apart, now, disk);
    case Reset(disk) => ResetKeeps(schema, app, apart, disk);
  }

  predicate OrderlyRun(schema: Schema, ops: seq<Op>)
    decreases |ops|
  {
    ops == [] || (OrderlyRun(schema, ops[..|ops| - 1]) && Orderly(schema, ops[|ops| - 1]))
  }

  /**
   * The sections that differed from the defaults in the file when it could not be read at start, or could
   * not be written at the latest reset, and were not edited since.
   */
  function Apart(schema: Schema, file: File, canRead: bool, ops: seq<Op>): set<string>
    decreases |ops|
  {
    if ops == [] then (if canRead then {} else Differing(schema, file))
    else
      var init := ops[..|ops| - 1];
      ApartAfter(schema, RunOps(schema, Start(schema, file, canRead), init).file,
                 Apart(schema, file, canRead, init), ops[|ops| - 1])
  }

  lemma ReadIsTyped(fields: Fields, t: Tab)
    requires FieldsSound(fields) && SectionReads(fields, t)
    ensures SectionTyped(fields, ReadSection(fields, t))
  {
    forall key | key in fields
      ensures Read(fields[key].kind, Leaf(ReadSection(fields, t)[key])) == Some(ReadSection(fields, t)[key])
    {
      assert ReadField(fields[key], Get(t, key)).Some?;
    }
  }

  lemma StartIsTyped(schema: Schema, file: File, canRead: bool)
    requires Sound(schema)
    ensures Typed(schema, LoadFrom(schema, file, canRead))
  {
    DefaultsTyped(schema);
    LoadIsLoadTable(schema, file);
    var t := Contents(file);
    if Loads(schema, t) {
      forall s | s in schema
        ensures SectionTyped(schema[s], LoadTable(schema, t)[s])
      {
        ReadIsTyped(schema[s], Entries(Get(t, s)));
      }
    }
  }

  /**
   * Over every run of edits, flushes and resets, with any disk failures, from any file that loads, read
   * at start or not: of the sections with nothing pending, those in the file as in memory are all but
   * the ones apart, and a save is due exactly when something is pending.
   */
  lemma {:induction false} RunsStayInStep(schema: Schema, file: File, canRead: bool, ops: seq<Op>)
    requires Sound(schema) && FileLoads(schema, file) && OrderlyRun(schema, ops)
    ensures Valid(schema, RunOps(schema, Start(schema, file, canRead), ops), Apart(schema, file, canRead, ops))
    decreases |ops|
  {
    if ops == [] {
      StartIsTyped(schema, file, canRead);
    } else {
      var init := ops[..|ops| - 1];
      RunsStayInStep(schema, file, canRead, init);
      StepKeeps(schema, RunOps(schema, Start(schema, file, canRead), init), Apart(schema, file, canRead, init), ops[|ops| - 1]);
    }
  }

  /** The step edits the section, or is a reset that is written. */
  predicate Touched(schema: Schema, file: File, op: Op, s: string) {
    match op
    case Edit(section, _, _, _) => section == s
    case Reset(disk) => ClearedFile(schema, file, disk).Some?
    case _ => false
  }

  /** What a flush or a reset that is not written leaves of a section with nothing pending. */
  lemma UntouchedStays(schema: Schema, app: App, op: Op, s: string)
    requires Typed(schema, app.config) && FileLoads(schema, app.file) && s in schema
    requires !Pending(app, s) && !op.Edit? && !Touched(schema, app.file, op, s)
    ensures Load(schema, Step(schema, app, op).file)[s] == Load(schema, app.file)[s]
  {
    if !op.Reset? {
      FlushSection(schema, app, op.now, op.disk, s);
    }
  }

  /** A section that is apart stays so, with its value in the file, until touched: no flush mends it. */
  lemma ApartUntilTouched(schema: Schema, app: App, apart: set<string>, op: Op, s: string)
    requires Sound(schema) && Valid(schema, app, apart) && Orderly(schema, op) && s in apart
    ensures s in ApartAfter(schema, app.file, apart, op) <==> !Touched(schema, app.file, op, s)
    ensures
      var app' := Step(schema, app, op);
      !Touched(schema, app.file, op, s) ==>
        && s in schema && Load(schema, app'.file)[s] == Load(schema, app.file)[s]
        && !Pending(app', s) && s in app'.config && !InStep(schema, app', s)
  {
    assert !InStep(schema, app, s);
    StepKeeps(schema, app, apart, op);
    if !op.Edit? && !Touched(schema, app.file, op, s) {
      UntouchedStays(schema, app, op, s);
    }
  }

  lemma StepStaysTyped(schema: Schema, app: App, op: Op)
    requires Sound(schema) && Typed(schema, app.config) && Orderly(schema, op)
    ensures Typed(schema, Step(schema, app, op).config)
  {
    DefaultsTyped(schema);
  }

  /** No step moves a key the companion does not manage. */
  lemma StepKeepsForeign(schema: Schema, app: App, op: Op, path: Path)
    requires Typed(schema, app.config) && Foreign(schema, path)
    ensures Look(Contents(Step(schema, app, op).file), path) == Look(Contents(app.file), path)
  {
    var t := Contents(app.file);
    SaveKeepsForeign(schema, t, app.config, Sections(app.notes), path);
    ClearIsExact(schema, t, path);
  }

  /** Over every run, from any file, each key the companion does not manage leads where it led at the start. */
  lemma {:induction false} RunsKeepForeign(schema: Schema, file: File, canRead: bool, ops: seq<Op>, path: Path)
    requires Sound(schema) && OrderlyRun(schema, ops) && Foreign(schema, path)
    ensures Typed(schema, RunOps(schema, Start(schema, file, canRead), ops).config)
    ensures Look(Contents(RunOps(schema, Start(schema, file, canRead), ops).file), path) == Look(Contents(file), path)
    decreases |ops|
  {
    if ops == [] {
      StartIsTyped(schema, file, canRead);
    } else {
      RunsKeepForeign(schema, file, canRead, ops[..|ops| - 1], path);
      var app := RunOps(schema, Start(schema, file, canRead), ops[..|ops| - 1]);
      StepStaysTyped(schema, app, ops[|ops| - 1]);
      StepKeepsForeign(schema, app, ops[|ops| - 1], path);
    }
  }

  /** A pending section stops being pending only by being written as it is in memory, or by a reset. */
  lemma NeverForgotten(schema: Schema, app: App, apart: set<string>, op: Op, s: string)
    requires Valid(schema, app, apart) && Pending(app, s) && !op.Reset?
    ensures
      var app' := Step(schema, app, op);
      Pending(app', s) || (s in schema && s in app'.config && app'.config == app.config && InStep(schema, app', s))
  {
    match op
    case Edit(section, values, text, now) => MarkedSections(app.notes, section, text, s);
    case Flush(now, disk) => FlushSection(schema, app, now, disk, s);
    case Tick(now, disk) => FlushSection(schema, app, now, disk, s);
  }

  /**
   * A flush that can write settles everything but the sections apart; one that cannot is due again five
   * seconds later, and no sooner.
   */
  lemma FlushOutcome(schema: Schema, app: App, apart: set<string>, now: Instant, disk: Disk, later: Instant)
    requires Valid(schema, app, apart)
    ensures
      var app' := Flushed(app, now, disk);
      if Saved(app.file, app.config, Sections(app.notes), disk).Some?
      then && app'.notes == [] && !SaveDue(app'.dirtySince, later)
           && (forall s :: s in schema ==> (Load(schema, app'.file)[s] == app.config[s] <==> s !in apart))
      else app'.file == app.file && app'.notes == app.notes
           && (app.notes != [] ==> (SaveDue(app'.dirtySince, later) <==> later >= now + 5000))
  {
    FlushKeeps(schema, app, apart, now, disk);
    var app' := Flushed(app, now, disk);
    if Saved(app.file, app.config, Sections(app.notes), disk).Some? {
      forall s | s in schema
        ensures Load(schema, app'.file)[s] == app.config[s] <==> s !in apart
      {
        assert InStep(schema, app', s) <==> s !in apart;
      }
    }
  }

  /** After a change nothing is written for half a second, counted anew from each change. */
  lemma Debounced(schema: Schema, app: App, section: string, values: Section, text: string, changed: Instant,
                  now: Instant, disk: Disk)
    ensures
      var edited := Step(schema, app, Edit(section, values, text, changed));
      Step(schema, edited, Tick(now, disk)) == if now < changed + 500 then edited else Flushed(edited, now, disk)
  {
  }

  /** What a flush of a change tells the user: the latest note of each section written, or once that writing fails. */
  lemma FlushLogs(app: App, now: Instant, disk: Disk)
    requires app.dirtySince.Some?
    ensures
      var app' := Flushed(app, now, disk);
      var written := Saved(app.file, app.config, Sections(app.notes), disk).Some?;
      var line := if written then ["Settings saved after all"] else ["Failed to save config"];
      && app'.failing == !written
      && app'.log == app.log + (if app.failing == written then line else []) + if written then Texts(app.notes) else []
  {
  }

  /** A reset tells whether the file was cleared; in memory it always takes, and nothing waits any more. */
  lemma ResetSays(schema: Schema, app: App, disk: Disk)
    ensures
      var app' := Step(schema, app, Reset(disk));
      var cleared := ClearedFile(schema, app.file, disk);
      && app'.config == Defaults(schema) && app'.notes == [] && app'.dirtySince == None && app'.failing == app.failing
      && (cleared.Some? ==> app'.file == cleared.value && app'.log == app.log + ["Settings reset to defaults"])
      && (cleared.None? ==> app'.file == app.file && app'.log == app.log + ["Reset applied in-memory but save failed"])
  {
  }

  /** Flushes and ticks of a disk that cannot be written. */
  predicate CannotWrite(ops: seq<Op>) {
    forall k :: 0 <= k < |ops| ==> (ops[k].Flush? || ops[k].Tick?) && !ops[k].disk.canWrite
  }

  /** However often a flush fails, nothing changes but when the next one is due, and the user hears of it once. */
  lemma {:induction false} FailuresKeepAll(schema: Schema, app: App, ops: seq<Op>)
    requires CannotWrite(ops)
    ensures
      var app' := RunOps(schema, app, ops);
      && app'.config == app.config && app'.notes == app.notes && app'.file == app.file
      && (app'.dirtySince.Some? <==> app.dirtySince.Some?)
      && (app'.log == app.log || (!app.failing && app'.failing && app'.log == app.log + ["Failed to save config"]))
      && (app'.failing <==> app.failing || app'.log != app.log)
    decreases |ops|
  {
    if ops != [] {
      FailuresKeepAll(schema, app, ops[..|ops| - 1]);
    }
  }

  // ---- from which files memory and file never part ----

  /** Some section is not pending and yet not in the file as it is in memory. */
  predicate Astray(schema: Schema, app: App) {
    exists s :: s in schema && s in app.config && !Pending(app, s) && !InStep(schema, app, s)
  }

  /** Typed edits, and every reset is written. */
  predicate CleanRun(schema: Schema, app: App, ops: seq<Op>)
    decreases |ops|
  {
    ops == [] || (
      var init, last := ops[..|ops| - 1], ops[|ops| - 1];
      && CleanRun(schema, app, init) && Orderly(schema, last)
      && (last.Reset? ==> ClearedFile(schema, RunOps(schema, app, init).file, last.disk).Some?))
  }

  /** No edits, saves, failed saves and written resets ever leave a section astray. */
  ghost predicate Guaranteed(schema: Schema, file: File, canRead: bool) {
    forall ops :: CleanRun(schema, Start(schema, file, canRead), ops) ==>
                    !Astray(schema, RunOps(schema, Start(schema, file, canRead), ops))
  }

  lemma {:induction false} CleanRunsPartNothing(schema: Schema, file: File, canRead: bool, ops: seq<Op>)
    requires CleanRun(schema, Start(schema, file, canRead), ops)
    ensures OrderlyRun(schema, ops)
    ensures Apart(schema, file, canRead, ops) <= Apart(schema, file, canRead, [])
    decreases |ops|
  {
    if ops != [] {
      CleanRunsPartNothing(schema, file, canRead, ops[..|ops| - 1]);
    }
  }

  lemma NoDifference(schema: Schema, file: File)
    ensures Differing(schema, file) == {} <==> Load(schema, file) == Defaults(schema)
  {
    if Differing(schema, file) == {} {
      forall s | s in schema
        ensures Load(schema, file)[s] == Defaults(schema)[s]
      {
        assert s !in Differing(schema, file);
      }
    }
  }

  /** Clean runs from a file that loads, read at start or with nothing but defaults in it. */
  lemma GoodStartHolds(schema: Schema, file: File, canRead: bool, ops: seq<Op>)
    requires Sound(schema) && FileLoads(schema, file) && (canRead || Load(schema, file) == Defaults(schema))
    requires CleanRun(schema, Start(schema, file, canRead), ops)
    ensures !Astray(schema, RunOps(schema, Start(schema, file, canRead), ops))
  {
    CleanRunsPartNothing(schema, file, canRead, ops);
    NoDifference(schema, file);
    RunsStayInStep(schema, file, canRead, ops);
  }

  lemma GoodStartGuarantees(schema: Schema, file: File, canRead: bool)
    requires Sound(schema) && FileLoads(schema, file) && (canRead || Load(schema, file) == Defaults(schema))
    ensures Guaranteed(schema, file, canRead)
  {
    forall ops | CleanRun(schema, Start(schema, file, canRead), ops)
      ensures !Astray(schema, RunOps(schema, Start(schema, file, canRead), ops))
    {
      GoodStartHolds(schema, file, canRead, ops);
    }
  }

  lemma BrokenOnce(schema: Schema, file: File, canRead: bool, ops: seq<Op>)
    requires CleanRun(schema, Start(schema, file, canRead), ops)
    requires Astray(schema, RunOps(schema, Start(schema, file, canRead), ops))
    ensures !Guaranteed(schema, file, canRead)
  {
  }

  /** A start that could not read a file with something in it is astray at once. */
  lemma UnreadStartBreaks(schema: Schema, file: File)
    requires FileLoads(schema, file) && Load(schema, file) != Defaults(schema)
    ensures Astray(schema, Start(schema, file, false))
  {
    NoDifference(schema, file);
    var s :| s in Differing(schema, file);
    assert !InStep(schema, Start(schema, file, false), s);
  }

  lemma OneMore(schema: Schema, app: App, ops: seq<Op>, op: Op)
    ensures RunOps(schema, app, ops + [op]) == Step(schema, RunOps(schema, app, ops), op)
    ensures CleanRun(schema, app, ops) && Orderly(schema, op) && !op.Reset? ==> CleanRun(schema, app, ops + [op])
  {
    assert (ops + [op])[..|ops + [op]| - 1] == ops;
  }

  lemma EditThenFlush(schema: Schema, app: App, section: string, values: Section, disk: Disk)
    requires app.dirtySince.None? && app.notes == []
    ensures
      var edit, flush := Edit(section, values, "", 0), Flush(SAVE_DEBOUNCE, disk);
      var edited := App(app.config[section := values], Some(0), [Note(section, "")], app.failing, app.log, app.file);
      && Sections(edited.notes) == [section]
      && RunOps(schema, app, [edit, flush]) == Flushed(edited, SAVE_DEBOUNCE, disk)
      && (Orderly(schema, edit) ==> CleanRun(schema, app, [edit, flush]))
  {
    var edit, flush := Edit(section, values, "", 0), Flush(SAVE_DEBOUNCE, disk);
    OneMore(schema, app, [], edit);
    OneMore(schema, app, [edit], flush);
    assert [] + [edit] == [edit] && [edit] + [flush] == [edit, flush];
    assert [] + [Note(section, "")] == [Note(section, "")];
  }

  lemma InitialValue(schema: Schema, section: string, key: string)
    requires section in schema && key in schema[section]
    ensures Defaults(schema)[section][key] == schema[section][key].initial
  {
  }

  /** A save beside a section with a wrong type leaves a file that does not load. */
  lemma StillIllTyped(schema: Schema, t: Tab, config: Settings, bad: string, section: string)
    requires bad in schema && !SectionLoads(schema[bad], Get(t, bad)) && section != bad && Typed(schema, config)
    ensures LoadTable(schema, Merge(t, Ours(config, [section]))) == Defaults(schema)
  {
    SaveThenLoad(schema, t, config, [section]);
  }

  lemma ChangedIsTyped(schema: Schema, section: string, values: Section)
    requires Sound(schema) && section in schema && SectionTyped(schema[section], values)
    ensures Typed(schema, Defaults(schema)[section := values])
  {
    DefaultsTyped(schema);
  }

  /** A section with a wrong type keeps another section's saved change from being read. */
  lemma SavedBesideIllTyped(schema: Schema, t: Tab, bad: string, section: string, key: string, values: Section,
                            canRead: bool)
    requires Sound(schema) && bad in schema && !SectionLoads(schema[bad], Get(t, bad))
    requires section in schema && section != bad && SectionTyped(schema[section], values)
    requires key in schema[section] && values[key] != schema[section][key].initial
    ensures
      var start := Start(schema, Parsed(t), canRead);
      var ops := [Edit(section, values, "", 0), Flush(SAVE_DEBOUNCE, Disk(true, true, true))];
      CleanRun(schema, start, ops) && Astray(schema, RunOps(schema, start, ops))
  {
    var start := Start(schema, Parsed(t), canRead);
    var disk := Disk(true, true, true);
    EditThenFlush(schema, start, section, values, disk);
    assert LoadTable(schema, t) == Defaults(schema);
    var config := Defaults(schema)[section := values];
    ChangedIsTyped(schema, section, values);
    StillIllTyped(schema, t, config, bad, section);
    InitialValue(schema, section, key);
    var edited := App(config, Some(0), [Note(section, "")], false, [], Parsed(t));
    FlushWrites(edited, SAVE_DEBOUNCE, disk);
    assert !InStep(schema, Flushed(edited, SAVE_DEBOUNCE, disk), section);
  }

  lemma FlushWrites(app: App, now: Instant, disk: Disk)
    requires app.dirtySince.Some? && disk == Disk(true, true, true)
    ensures
      var app' := Flushed(app, now, disk);
      app'.config == app.config && app'.notes == []
      && app'.file == Parsed(Merge(Contents(app.file), Ours(app.config, Sections(app.notes))))
  {
  }

  /** From every file with a managed key of the wrong type, an edit saved without an error is not what the file gives back. */
  lemma IllTypedFileBreaks(t: Tab, canRead: bool) returns (ops: seq<Op>)
    requires !Loads(MANAGED, t)
    ensures CleanRun(MANAGED, Start(MANAGED, Parsed(t), canRead), ops)
    ensures Astray(MANAGED, RunOps(MANAGED, Start(MANAGED, Parsed(t), canRead), ops))
  {
    ManagedIsSound();
    var bad :| bad in MANAGED && !SectionLoads(MANAGED[bad], Get(t, bad));
    var section, key := if bad == "deploy" then "video" else "deploy", if bad == "deploy" then "codec" else "apk_path";
    var values := map[key := Text("x")];
    var fields := if bad == "deploy" then VIDEO else DEPLOY;
    ManagedWords();
    OneWordSection(fields, key, "x");
    SavedBesideIllTyped(MANAGED, t, bad, section, key, values, canRead);
    ops := [Edit(section, values, "", 0), Flush(SAVE_DEBOUNCE, Disk(true, true, true))];
  }

  lemma ManagedWords()
    ensures "video" in MANAGED && MANAGED["video"] == VIDEO
    ensures "deploy" in MANAGED && MANAGED["deploy"] == DEPLOY
  {
  }

  lemma OneWordSection(fields: Fields, key: string, word: string)
    requires fields.Keys == {key} && fields[key].kind == Words
    ensures SectionTyped(fields, map[key := Text(word)])
  {
  }

  lemma EmptyFileLoads(file: File)
    requires !file.Parsed?
    ensures FileLoads(MANAGED, file)
  {
  }

  /**
   * Memory and file stay together over every clean run from exactly the starts where the file loads and
   * was read, or holds nothing but the defaults.
   */
  lemma GuaranteedExactly(file: File, canRead: bool)
    ensures Guaranteed(MANAGED, file, canRead)
       <==> FileLoads(MANAGED, file) && (canRead || Load(MANAGED, file) == Defaults(MANAGED))
  {
    ManagedIsSound();
    if !FileLoads(MANAGED, file) {
      if !file.Parsed? {
        EmptyFileLoads(file);
      }
      var ops := IllTypedFileBreaks(file.table, canRead);
      BrokenOnce(MANAGED, file, canRead, ops);
    } else if canRead || Load(MANAGED, file) == Defaults(MANAGED) {
      GoodStartGuarantees(MANAGED, file, canRead);
    } else {
      UnreadStartBreaks(MANAGED, file);
      BrokenOnce(MANAGED, file, canRead, []);
    }
  }
}
