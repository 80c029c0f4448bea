/**
 * The `configuration` object: the loaded INI store (absent when no file was
 * found), the home directory, and the snapshots written to the configuration
 * file. Reads copy or filter a section; the `Mutator` methods edit the store in
 * place; `ApplyChanges` runs a batch of edits and persists once.
 */
module Config {
  import opened Wrappers
  import opened Schema
  import opened IniStore

  /** A copy of `kvmap`, built entry by entry as the `for k, v := range kvmap` loops do. */
  method CopyEntries(kvmap: Entries) returns (r: Entries)
    ensures r == kvmap
  {
    r := map[];
    var todo := kvmap.Keys;
    while todo != {}
      invariant todo <= kvmap.Keys
      invariant r.Keys == kvmap.Keys - todo
      invariant forall k | k in r :: r[k] == kvmap[k]
      decreases todo
    {
      var k :| k in todo;
      r := r[k := kvmap[k]];
      todo := todo - {k};
    }
  }

  /** The entries of `kvmap` whose key has the prefix `key:`, built entry by entry. */
  method FilterOverrides(kvmap: Entries, key: Key) returns (r: Entries)
    ensures r == Overrides(kvmap, key)
  {
    var keySpace := key.name + ":";
    r := map[];
    var todo := kvmap.Keys;
    while todo != {}
      invariant todo <= kvmap.Keys
      invariant forall k :: k in r <==> k in kvmap && k !in todo && keySpace <= k
      invariant forall k | k in r :: r[k] == kvmap[k]
      decreases todo
    {
      var k :| k in todo;
      if keySpace <= k {
        r := r[k := kvmap[k]];
      }
      todo := todo - {k};
    }
  }

  class Configuration {
    /** The loaded store; `None` is the nil `*goini.INI` left when no file was found. */
    var ini: Option<Store>
    const homeDir: string
    /** Every store snapshot written to `<homeDir>/github-release-monitor/config`, oldest first. */
    var written: seq<Store>

    /** `NewConfiguration`: `file` is the parsed configuration file, `None` when it does not exist. */
    constructor (homeDir: string, file: Option<Store>)
      ensures this.homeDir == homeDir && ini == file && written == []
    {
      this.homeDir := homeDir;
      ini := file;
      written := [];
    }

    method Section(section: Section) returns (r: Entries)
      requires ini.Some? && !section.named
      ensures r == SectionOf(ini.value, section.name)
    {
      var sectionName := section.name;
      if sectionName in ini.value {
        r := CopyEntries(ini.value[sectionName]);
      } else {
        r := map[];
      }
    }

    method SectionGet(section: Section, key: Key, specifier: string) returns (value: string, ok: bool)
      requires ini.Some? && !section.named
      ensures (value, ok) == Resolve(ini.value, section.name, key, specifier)
    {
      value, ok := sectionGet(section.name, key, specifier);
    }

    method SectionGetOverrides(section: Section, key: Key) returns (r: Entries)
      requires ini.Some? && !section.named
      ensures r == Overrides(SectionOf(ini.value, section.name), key)
    {
      var sectionName := section.name;
      if sectionName in ini.value {
        r := FilterOverrides(ini.value[sectionName], key);
      } else {
        r := map[];
      }
    }

    /** Every header `SectionLookup` maps to `section`, each once, in no particular order. */
    method NamedSections(section: Section) returns (r: seq<string>)
      requires ini.Some?
      ensures forall h :: h in r <==> h in NamedHeaders(ini.value, section)
      ensures forall i, j | 0 <= i < j < |r| :: r[i] != r[j]
    {
      var all := ini.value;
      r := [];
      var todo := all.Keys;
      while todo != {}
        invariant todo <= all.Keys
        invariant forall h :: h in r <==> h in all && h !in todo && SectionLookup(h) == Some(section)
        invariant forall i, j | 0 <= i < j < |r| :: r[i] != r[j]
        decreases todo
      {
        var iniSection :| iniSection in todo;
        if SectionLookup(iniSection) == Some(section) {
          r := r + [iniSection];
        }
        todo := todo - {iniSection};
      }
    }

    method NamedSection(name: string, section: Section) returns (r: Entries)
      requires ini.Some? && section.named
      ensures r == SectionOf(ini.value, BuildSectionName(section, name))
    {
      var sectionName := BuildSectionName(section, name);
      if sectionName in ini.value {
        r := CopyEntries(ini.value[sectionName]);
      } else {
        r := map[];
      }
    }

    method NamedSectionGet(name: string, section: Section, key: Key, specifier: string) returns (value: string, ok: bool)
      requires ini.Some? && section.named
      ensures (value, ok) == Resolve(ini.value, BuildSectionName(section, name), key, specifier)
    {
      value, ok := sectionGet(BuildSectionName(section, name), key, specifier);
    }

    method NamedSectionGetOverrides(name: string, section: Section, key: Key) returns (r: Entries)
      requires ini.Some? && section.named
      ensures r == Overrides(SectionOf(ini.value, BuildSectionName(section, name)), key)
    {
      var sectionName := BuildSectionName(section, name);
      if sectionName in ini.value {
        r := FilterOverrides(ini.value[sectionName], key);
      } else {
        r := map[];
      }
    }

    /**
     * Go's private `sectionGet`, shared by `SectionGet` and `NamedSectionGet`: the
     * override probe, then the bare key, carried out on the loaded store.
     */
    method sectionGet(sectionName: string, key: Key, specifier: string) returns (value: string, ok: bool)
      requires ini.Some?
      ensures (value, ok) == Resolve(ini.value, sectionName, key, specifier)
    {
      if key.overloadable && specifier != "" {
        var probe := Get(ini.value, sectionName, BuildOverloadedKey(key, specifier));
        if probe.1 {
          return probe.0, true;
        }
      }
      var probe := Get(ini.value, sectionName, key.name);
      value, ok := probe.0, probe.1;
    }

    method Delete(section: Section)
      requires ini.Some? && !section.named
      modifies this`ini
      ensures ini == Some(Drop(old(ini.value), section.name))
    {
      ini := Some(Drop(ini.value, section.name));
    }

    method SectionSet(section: Section, key: Key, specifier: string, value: string)
      requires ini.Some? && !section.named
      modifies this`ini
      ensures ini == Some(Set(old(ini.value), section.name, EffectiveKey(key, specifier), value))
    {
      var keySpace := key.name;
      if specifier != "" {
        keySpace := BuildOverloadedKey(key, specifier);
      }
      ini := Some(Set(ini.value, section.name, keySpace, value));
    }

    method SectionDelete(section: Section, key: Key, specifier: string)
      requires ini.Some? && !section.named
      modifies this`ini
      ensures ini == Some(Remove(old(ini.value), section.name, EffectiveKey(key, specifier)))
    {
      var keySpace := key.name;
      if specifier != "" {
        keySpace := BuildOverloadedKey(key, specifier);
      }
      ini := Some(Remove(ini.value, section.name, keySpace));
    }

    method NamedDelete(name: string, section: Section)
      requires ini.Some? && section.named
      modifies this`ini
      ensures ini == Some(Drop(old(ini.value), BuildSectionName(section, name)))
    {
      ini := Some(Drop(ini.value, BuildSectionName(section, name)));
    }

    method NamedSectionSet(name: string, section: Section, key: Key, specifier: string, value: string)
      requires ini.Some? && section.named
      modifies this`ini
      ensures ini == Some(Set(old(ini.value), BuildSectionName(section, name), EffectiveKey(key, specifier), value))
    {
      var sectionName := BuildSectionName(section, name);
      var keySpace := key.name;
      if specifier != "" {
        keySpace := BuildOverloadedKey(key, specifier);
      }
      ini := Some(Set(ini.value, sectionName, keySpace, value));
    }

    method NamedSectionDelete(name: string, section: Section, key: Key, specifier: string)
      requires ini.Some? && section.named
      modifies this`ini
      ensures ini == Some(Remove(old(ini.value), BuildSectionName(section, name), EffectiveKey(key, specifier)))
    {
      var sectionName := BuildSectionName(section, name);
      var keySpace := key.name;
      if specifier != "" {
        keySpace := BuildOverloadedKey(key, specifier);
      }
      ini := Some(Remove(ini.value, sectionName, keySpace));
    }

    /** One call the batch makes on the mutator. */
    method Perform(e: Edit)
      requires ini.Some? && e.WellKinded()
      modifies this`ini
      ensures ini == Some(ApplyEdit(old(ini.value), e))
    {
      match e
      case Delete(section) => this.Delete(section);
      case SectionSet(section, key, specifier, value) => this.SectionSet(section, key, specifier, value);
      case SectionDelete(section, key, specifier) => this.SectionDelete(section, key, specifier);
      case NamedDelete(name, section) => this.NamedDelete(name, section);
      case NamedSectionSet(name, section, key, specifier, value) => this.NamedSectionSet(name, section, key, specifier, value);
      case NamedSectionDelete(name, section, key, specifier) => this.NamedSectionDelete(name, section, key, specifier);
    }

    /**
     * `ApplyChanges`: an empty store when none was loaded, then the edits in
     * order, then exactly one write of the resulting store.
     */
    method ApplyChanges(edits: seq<Edit>)
      requires AllWellKinded(edits)
      modifies this
      ensures ini == Some(ApplyEdits(if old(ini).Some? then old(ini).value else map[], edits))
      ensures written == old(written) + [ini.value]
    {
      if ini.None? {
        ini := Some(map[]);
      }
      ghost var start := ini.value;
      var i := 0;
      while i < |edits|
        invariant 0 <= i <= |edits|
        invariant AllWellKinded(edits[..i])
        invariant ini == Some(ApplyEdits(start, edits[..i]))
        invariant written == old(written)
      {
        assert edits[..i + 1][..i] == edits[..i];
        Perform(edits[i]);
        i := i + 1;
      }
      assert edits[..|edits|] == edits;
      Persist();
    }

    /** `store`: writes the store when there is one, and nothing otherwise. */
    method Persist()
      modifies this`written
      ensures written == old(written) + if ini.Some? then [ini.value] else []
    {
      if ini.Some? {
        written := written + [ini.value];
      }
    }
  }

  /**
   * A value set through `ApplyChanges` is read back, with an empty specifier,
   * from a configuration loaded from the file that was written.
   */
  method SetThenReload(c: Configuration, name: string, key: Key, value: string) returns (got: string, ok: bool)
    modifies c
    ensures got == value && ok
  {
    var edits := [NamedSectionSet(name, Remote, key, "", value)];
    c.ApplyChanges(edits);
    var reloaded := new Configuration(c.homeDir, Some(c.written[|c.written| - 1]));
    assert edits[..0] == [];
    SetThenResolve(if old(c.ini).Some? then old(c.ini).value else map[], BuildSectionName(Remote, name), key, "", value);
    got, ok := reloaded.NamedSectionGet(name, Remote, key, "");
  }
}
