/**
 * The fixed schema of the configuration file: one named section template, ten
 * keys with their `overloadable` and `exportable` flags, the two reverse-lookup
 * tables, and the functions that build and parse section headers and
 * `key:specifier` names.
 */
module Schema {
  import opened Wrappers
  import opened Strings

  /** A section: its header (a template with one `%s` when `named`) and whether it is named. */
  datatype Section = Section(name: string, named: bool)

  /** A key: its bare name, whether it takes per-specifier overrides, and whether it may be exported. */
  datatype Key = Key(name: string, overloadable: bool, exportable: bool)

  /** The word that opens every `Remote` header; `sectionLookup` files `Remote` under it. */
  const RemoteWord := "Remote"

  /** `Remote "%s"`, written as the concatenation of its parts. */
  const Remote: Section := Section(RemoteWord + " \"" + "%s" + "\"", true)

  const Username: Key := Key("username", false, false)
  const Password: Key := Key("password", false, false)
  const Salt: Key := Key("salt", false, false)
  const RemoteUser: Key := Key("user", false, true)
  const ShowPrivate: Key := Key("show-private", false, true)
  const RepositoryPattern: Key := Key("repository-pattern", false, true)

  const ReleasePattern: Key := Key("release-pattern", true, true)
  const MilestonePattern: Key := Key("milestone-pattern", true, true)
  const RepositoryBlacklisted: Key := Key("repository-blacklisted", true, true)
  const DownloadUrl: Key := Key("download-url", true, true)

  /** Every key the schema defines. */
  const Keys: set<Key> := {
    Username, Password, Salt, RemoteUser, ShowPrivate, RepositoryPattern,
    ReleasePattern, MilestonePattern, RepositoryBlacklisted, DownloadUrl
  }

  /** Section template prefix to section (`sectionLookup`). */
  const SectionTable: map<string, Section> := map[RemoteWord := Remote]

  /** Bare key name to key (`keyLookup`). */
  const KeyTable: map<string, Key> := map[
    Username.name := Username,
    Password.name := Password,
    Salt.name := Salt,
    RemoteUser.name := RemoteUser,
    ShowPrivate.name := ShowPrivate,
    RepositoryPattern.name := RepositoryPattern,
    ReleasePattern.name := ReleasePattern,
    MilestonePattern.name := MilestonePattern,
    RepositoryBlacklisted.name := RepositoryBlacklisted,
    DownloadUrl.name := DownloadUrl
  ]

  /** `buildSectionName`: the instance name substituted into the section's template. */
  function BuildSectionName(section: Section, name: string): string
  {
    Format(section.name, name)
  }

  /** `buildOverloadedKey`: the effective name `key:specifier`. */
  function BuildOverloadedKey(key: Key, specifier: string): string
  {
    key.name + ":" + specifier
  }

  /** `KeyLookup`: the key whose name is the text before the first colon, if any. */
  function KeyLookup(raw: string): Option<Key>
  {
    var name := Before(raw, ":");
    if name in KeyTable then Some(KeyTable[name]) else None
  }

  /**
   * `SectionLookup`: a header without a space is looked up as it is; otherwise
   * the text before the first ` "` is looked up.
   */
  function SectionLookup(raw: string): Option<Section>
  {
    var name := if ' ' !in raw then raw else Before(raw, " \"");
    if name in SectionTable then Some(SectionTable[name]) else None
  }

  /**
   * `ExtractSpecifier`: the second colon-separated token when there is a colon;
   * otherwise the text between the first two double quotes when there are two;
   * otherwise the empty string.
   */
  function ExtractSpecifier(raw: string): string
  {
    if Contains(raw, ":") then Before(After(raw, ":"), ":")
    else if Contains(raw, "\"") && Contains(After(raw, "\""), "\"") then Before(After(raw, "\""), "\"")
    else ""
  }

  /** Each entry of `keyLookup` is a registered key filed under its own name. */
  lemma KeyTableEntries()
    ensures forall n | n in KeyTable :: KeyTable[n] in Keys && KeyTable[n].name == n
  {
  }

  /** Every registered key is in `keyLookup` under its own name. */
  lemma KeyTableCoversKeys()
    ensures forall k | k in Keys :: k.name in KeyTable && KeyTable[k.name] == k
  {
  }

  /** `sectionLookup` holds `Remote` alone, under the word that opens its headers. */
  lemma SectionTableEntries()
    ensures forall n | n in SectionTable :: SectionTable[n] == Remote && n == RemoteWord
    ensures RemoteWord in SectionTable
  {
  }

  // The next four lemmas split `KeyNameHasNoColon` into small groups of literal names, each
  // cheap for the solver; on their own they state nothing beyond it.

  lemma NoColonInCredentialKeys()
    ensures ':' !in Username.name && ':' !in Password.name && ':' !in Salt.name
  {
  }

  lemma NoColonInPropertyKeys()
    ensures ':' !in RemoteUser.name && ':' !in ShowPrivate.name && ':' !in RepositoryPattern.name
  {
  }

  lemma NoColonInPatternKeys()
    ensures ':' !in ReleasePattern.name && ':' !in MilestonePattern.name
  {
  }

  lemma NoColonInRepositoryKeys()
    ensures ':' !in RepositoryBlacklisted.name && ':' !in DownloadUrl.name
  {
  }

  /** No registered key name contains a colon, so `key:specifier` splits back unambiguously. */
  lemma KeyNameHasNoColon(k: Key)
    requires k in Keys
    ensures ':' !in k.name
  {
    NoColonInCredentialKeys();
    NoColonInPropertyKeys();
    NoColonInPatternKeys();
    NoColonInRepositoryKeys();
  }

  /** The characters of the fixed parts of a `Remote` header. */
  lemma RemoteWordCharacters()
    ensures ' ' !in RemoteWord && ':' !in RemoteWord && '"' !in RemoteWord && '%' !in RemoteWord
    ensures |RemoteWord| == 6
  {
  }

  /** The header of a `Remote` instance is `Remote "<name>"`. */
  lemma RemoteHeader(name: string)
    ensures BuildSectionName(Remote, name) == RemoteWord + " \"" + name + "\""
  {
    var prefix := RemoteWord + " \"";
    RemoteWordCharacters();
    assert Remote.name == prefix + ("%s" + "\"");
    FindAfterPrefix(prefix, "%s" + "\"", "%s");
    assert "%s" <= "%s" + "\"";
    assert Remote.name[..|prefix|] == prefix;
    assert Remote.name[|prefix| + 2..] == "\"";
  }

  /** Different instance names give different headers. */
  lemma SectionNameInjective(n: string, m: string)
    requires n != m
    ensures BuildSectionName(Remote, n) != BuildSectionName(Remote, m)
  {
    RemoteHeader(n);
    RemoteHeader(m);
    var hn := RemoteWord + " \"" + n + "\"";
    assert hn[8..|hn| - 1] == n;
  }

  /** Whatever `KeyLookup` finds is a registered key whose name is the raw name or its part before a colon. */
  lemma KeyLookupFindsOnlyPrefix(raw: string, k: Key)
    requires KeyLookup(raw) == Some(k)
    ensures k in Keys && (raw == k.name || k.name + ":" <= raw)
  {
    KeyTableEntries();
    var i := Find(raw, ":");
    ContainsChar(raw, ':');
    if i < |raw| {
      assert raw[..i + 1] == raw[..i] + ":";
    }
  }

  /** A registered key is found from its bare name and from every name that starts with `key:`. */
  lemma KeyLookupFindsPrefix(raw: string, k: Key)
    requires k in Keys && (raw == k.name || k.name + ":" <= raw)
    ensures KeyLookup(raw) == Some(k)
  {
    KeyTableCoversKeys();
    KeyNameHasNoColon(k);
    if raw == k.name {
      ContainsChar(raw, ':');
    } else {
      var rest := raw[|k.name| + 1..];
      assert raw == k.name + ":" + rest;
      SplitAt(k.name, ":", rest);
    }
  }

  /** `KeyLookup` finds `k` exactly for `k`'s bare name and for names starting with `k:`. */
  lemma KeyLookupExactly(raw: string, k: Key)
    ensures KeyLookup(raw) == Some(k) <==> k in Keys && (raw == k.name || k.name + ":" <= raw)
  {
    if KeyLookup(raw) == Some(k) {
      KeyLookupFindsOnlyPrefix(raw, k);
    }
    if k in Keys && (raw == k.name || k.name + ":" <= raw) {
      KeyLookupFindsPrefix(raw, k);
    }
  }

  /** Every registered key is found again from any `key:specifier` built from it. */
  lemma KeyLookupOfOverloadedKey(k: Key, specifier: string)
    requires k in Keys
    ensures KeyLookup(BuildOverloadedKey(k, specifier)) == Some(k)
    ensures KeyLookup(k.name) == Some(k)
  {
    KeyLookupExactly(BuildOverloadedKey(k, specifier), k);
    KeyLookupExactly(k.name, k);
  }

  /** `SectionLookup` finds `Remote` exactly for `Remote` and for headers starting with `Remote "`; nothing else is found. */
  lemma SectionLookupExactly(raw: string, s: Section)
    ensures SectionLookup(raw) == Some(s) <==> s == Remote && (raw == RemoteWord || RemoteWord + " \"" <= raw)
  {
    SectionTableEntries();
    RemoteWordCharacters();
    if SectionLookup(raw) == Some(s) && ' ' in raw {
      var i := Find(raw, " \"");
      assert raw[..i] == RemoteWord;
      assert i < |raw|;
      assert " \"" <= raw[i..];
      assert raw[..i + 2] == raw[..i] + raw[i..][..2];
    }
    if s == Remote && RemoteWord + " \"" <= raw {
      var rest := raw[|RemoteWord| + 2..];
      assert raw == RemoteWord + " \"" + rest;
      assert raw[|RemoteWord|] == ' ';
      SplitAt(RemoteWord, " \"", rest);
    }
  }

  /** Every `Remote` instance header is recognised as `Remote`. */
  lemma SectionLookupOfSectionName(name: string)
    ensures SectionLookup(BuildSectionName(Remote, name)) == Some(Remote)
  {
    RemoteHeader(name);
    SectionLookupExactly(BuildSectionName(Remote, name), Remote);
  }

  /** The specifier is recovered from `key:specifier` when neither part has a colon. */
  lemma ExtractSpecifierOfOverloadedKey(k: Key, specifier: string)
    requires ':' !in k.name && ':' !in specifier
    ensures ExtractSpecifier(BuildOverloadedKey(k, specifier)) == specifier
  {
    SplitAt(k.name, ":", specifier);
    ContainsChar(specifier, ':');
  }

  /** The instance name is recovered from `Remote "<name>"` when it has no quote and no colon. */
  lemma ExtractSpecifierOfSectionName(name: string)
    requires '"' !in name && ':' !in name
    ensures ExtractSpecifier(BuildSectionName(Remote, name)) == name
  {
    RemoteHeader(name);
    RemoteWordCharacters();
    var opening := RemoteWord + [' '];
    var closing := name + ['"'];
    var h := opening + ['"'] + closing;
    assert h == BuildSectionName(Remote, name);
    assert '"' !in opening;
    assert ':' !in h;
    ContainsChar(h, ':');
    SplitAt(opening, ['"'], closing);
    assert closing == name + ['"'] + [];
    SplitAt(name, ['"'], []);
  }

  /** A string with no colon and at most one double quote has no specifier. */
  lemma ExtractSpecifierOfPlainName(raw: string)
    requires ':' !in raw
    requires forall i, j | 0 <= i < j < |raw| :: raw[i] != '"' || raw[j] != '"'
    ensures ExtractSpecifier(raw) == ""
  {
    ContainsChar(raw, ':');
    if Contains(raw, "\"") {
      ContainsChar(raw, '"');
      ContainsChar(After(raw, "\""), '"');
    }
  }
}
