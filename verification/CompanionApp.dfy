/** The companion's settings state, updated in place as in main.rs and ui/settings.rs. */
module CompanionApp {
  import opened Options
  import opened LocalConfig
  import opened SettingsCache

  class Companion {
    const schema: Schema
    var localConfig: Settings
    /** What the sliders and toggles show. */
    var shown: Settings
    var configDirtySince: Option<Instant>
    var pendingSaveNotes: seq<Note>
    var configSaveFailing: bool
    var statusLog: seq<string>
    /** local.toml. */
    var file: File

    ghost function Value(): App
      reads this
    {
      App(localConfig, configDirtySince, pendingSaveNotes, configSaveFailing, statusLog, file)
    }

    constructor (schema: Schema, file: File, canRead: bool)
      ensures this.schema == schema && Value() == Start(schema, file, canRead) && shown == localConfig
    {
      this.schema := schema;
      this.localConfig := LoadFrom(schema, file, canRead);
      this.shown := LoadFrom(schema, file, canRead);
      this.configDirtySince := None;
      this.pendingSaveNotes := [];
      this.configSaveFailing := false;
      this.statusLog := [];
      this.file := file;
    }

    /** A section changed on screen: the settings follow and the change waits to be saved. */
    method Edit(section: string, values: Section, note: string, now: Instant)
      modifies this
      ensures Value() == Step(schema, old(Value()), SettingsCache.Edit(section, values, note, now))
      ensures old(shown == localConfig) ==> shown == localConfig
    {
      shown := shown[section := values];
      localConfig := localConfig[section := values];
      MarkConfigDirty(section, note, now);
    }

    method MarkConfigDirty(group: string, note: string, now: Instant)
      modifies this`configDirtySince, this`pendingSaveNotes
      ensures configDirtySince == Some(now)
      ensures pendingSaveNotes == Without(old(pendingSaveNotes), group) + [Note(group, note)]
    {
      configDirtySince := Some(now);
      var kept := [];
      for i := 0 to |pendingSaveNotes|
        invariant kept == Without(pendingSaveNotes[..i], group)
      {
        assert pendingSaveNotes[..i + 1][..i] == pendingSaveNotes[..i];
        if pendingSaveNotes[i].section != group {
          kept := kept + [pendingSaveNotes[i]];
        }
      }
      assert pendingSaveNotes[..|pendingSaveNotes|] == pendingSaveNotes;
      pendingSaveNotes := kept + [Note(group, note)];
    }

    method FlushConfigIfDue(now: Instant, disk: Disk)
      modifies this
      ensures Value() == Step(schema, old(Value()), Tick(now, disk)) && shown == old(shown)
    {
      if SaveDue(configDirtySince, now) {
        FlushConfig(now, disk);
      }
    }

    method FlushConfig(now: Instant, disk: Disk)
      modifies this
      ensures Value() == Flushed(old(Value()), now, disk) && shown == old(shown)
    {
      if configDirtySince.None? {
        return;
      }
      configDirtySince := None;
      var notes := pendingSaveNotes;
      pendingSaveNotes := [];
      var sections := Sections(notes);
      var written := SaveTo(localConfig, file, sections, disk);
      if written.Some? {
        file := written.value;
        if configSaveFailing {
          configSaveFailing := false;
          statusLog := statusLog + ["Settings saved after all"];
        }
        LogAll(notes);
      } else {
        if !configSaveFailing {
          statusLog := statusLog + ["Failed to save config"];
        }
        configSaveFailing := true;
        pendingSaveNotes := notes;
        configDirtySince := Some(now + (SAVE_RETRY - SAVE_DEBOUNCE));
      }
    }

    method LogAll(notes: seq<Note>)
      modifies this`statusLog
      ensures statusLog == old(statusLog) + Texts(notes)
    {
      for i := 0 to |notes|
        invariant statusLog == old(statusLog) + Texts(notes[..i])
      {
        assert notes[..i + 1][..i] == notes[..i];
        statusLog := statusLog + [notes[i].text];
      }
      assert notes[..|notes|] == notes;
    }

    method ResetToDefaults(disk: Disk)
      modifies this
      ensures Value() == Step(schema, old(Value()), Reset(disk)) && shown == localConfig
    {
      localConfig := Defaults(schema);
      configDirtySince := None;
      pendingSaveNotes := [];
      shown := localConfig;
      var written := ClearFrom(schema, file, disk);
      if written.Some? {
        file := written.value;
        statusLog := statusLog + ["Settings reset to defaults"];
      } else {
        statusLog := statusLog + ["Reset applied in-memory but save failed"];
      }
    }
  }
}
