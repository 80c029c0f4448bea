/**
 * The in-memory configuration store as a value: a map from section header to
 * a map from effective key (`key` or `key:specifier`) to value. The functions
 * here say what each read and each edit of `config.go` means; the class in
 * `Config` carries them out.
 */
module IniStore {
  import opened Wrappers
  import opened Schema

  type Entries = map<string, string>
  type Store = map<string, Entries>

  /** The entries of one section; a section that is not there reads as empty. */
  function SectionOf(store: Store, header: string): Entries
  {
    if header in store then store[header] else map[]
  }

  /** The INI store's `SectionGet`: the value under one raw key, or `("", false)`. */
  function Get(store: Store, header: string, rawKey: string): (string, bool)
  {
    if header in store && rawKey in store[header] then (store[header][rawKey], true) else ("", false)
  }

  /**
   * `sectionGet`: an overloadable key with a non-empty specifier is first looked
   * up as `key:specifier`; otherwise, or on a miss, the bare key is looked up.
   */
  function Resolve(store: Store, header: string, key: Key, specifier: string): (string, bool)
  {
    var overloaded := Get(store, header, BuildOverloadedKey(key, specifier));
    if key.overloadable && specifier != "" && overloaded.1 then overloaded
    else Get(store, header, key.name)
  }

  /** The raw key an edit addresses: `key:specifier` for a non-empty specifier, else the bare name. */
  function EffectiveKey(key: Key, specifier: string): string
  {
    if specifier != "" then BuildOverloadedKey(key, specifier) else key.name
  }

  /** The INI store's `SectionSet`: one entry written, its section created when missing. */
  function Set(store: Store, header: string, rawKey: string, value: string): (r: Store)
    ensures r.Keys == store.Keys + {header}
    ensures forall h, k :: Get(r, h, k) == if h == header && k == rawKey then (value, true) else Get(store, h, k)
  {
    store[header := SectionOf(store, header)[rawKey := value]]
  }

  /** The INI store's `Delete`: one entry removed; the section itself stays. */
  function Remove(store: Store, header: string, rawKey: string): (r: Store)
    ensures r.Keys == store.Keys
    ensures forall h, k :: Get(r, h, k) == if h == header && k == rawKey then ("", false) else Get(store, h, k)
  {
    if header in store then store[header := store[header] - {rawKey}] else store
  }

  /** `delete(GetAll(), header)`: the whole section removed. */
  function Drop(store: Store, header: string): (r: Store)
    ensures r.Keys == store.Keys - {header}
    ensures forall h | h in r :: r[h] == store[h]
    ensures forall h, k :: Get(r, h, k) == if h == header then ("", false) else Get(store, h, k)
  {
    store - {header}
  }

  /** The entries of a section whose raw key starts with `key:`, kept under their full names. */
  function Overrides(entries: Entries, key: Key): Entries
  {
    map k | k in entries && key.name + ":" <= k :: entries[k]
  }

  /** The headers that `SectionLookup` maps back to `section`. */
  function NamedHeaders(store: Store, section: Section): set<string>
  {
    set h | h in store && SectionLookup(h) == Some(section)
  }

  /** One call of a `Mutator` method inside `ApplyChanges`. */
  datatype Edit =
    | Delete(section: Section)
    | SectionSet(section: Section, key: Key, specifier: string, value: string)
    | SectionDelete(section: Section, key: Key, specifier: string)
    | NamedDelete(name: string, section: Section)
    | NamedSectionSet(name: string, section: Section, key: Key, specifier: string, value: string)
    | NamedSectionDelete(name: string, section: Section, key: Key, specifier: string)
  {
    /** The unnamed methods take an unnamed section and the named ones a named section; otherwise the program stops. */
    predicate WellKinded()
    {
      if Delete? || SectionSet? || SectionDelete? then !section.named else section.named
    }

    /** The header of the section the edit touches. */
    function Header(): string
    {
      if Delete? || SectionSet? || SectionDelete? then section.name else BuildSectionName(section, name)
    }
  }

  /** The store after one edit. */
  function ApplyEdit(store: Store, e: Edit): Store
    requires e.WellKinded()
  {
    match e
    case Delete(section) => Drop(store, section.name)
    case SectionSet(section, key, specifier, value) => Set(store, section.name, EffectiveKey(key, specifier), value)
    case SectionDelete(section, key, specifier) => Remove(store, section.name, EffectiveKey(key, specifier))
    case NamedDelete(name, section) => Drop(store, BuildSectionName(section, name))
    case NamedSectionSet(name, section, key, specifier, value) =>
      Set(store, BuildSectionName(section, name), EffectiveKey(key, specifier), value)
    case NamedSectionDelete(name, section, key, specifier) =>
      Remove(store, BuildSectionName(section, name), EffectiveKey(key, specifier))
  }

  predicate AllWellKinded(edits: seq<Edit>)
  {
    forall i | 0 <= i < |edits| :: edits[i].WellKinded()
  }

  /** The store after a batch of edits, applied first to last. */
  function ApplyEdits(store: Store, edits: seq<Edit>): Store
    requires AllWellKinded(edits)
    decreases |edits|
  {
    if edits == [] then store
    else ApplyEdit(ApplyEdits(store, edits[..|edits| - 1]), edits[|edits| - 1])
  }

  // ---------------------------------------------------------------------------
  // Override resolution

  /** An override present for an overloadable key and a non-empty specifier wins. */
  lemma OverrideTakesPrecedence(store: Store, header: string, key: Key, specifier: string)
    requires key.overloadable && specifier != ""
    requires BuildOverloadedKey(key, specifier) in SectionOf(store, header)
    ensures Resolve(store, header, key, specifier) == (SectionOf(store, header)[BuildOverloadedKey(key, specifier)], true)
  {
  }

  /** Without an applicable override the result is exactly the bare key's lookup. */
  lemma FallsBackToBareKey(store: Store, header: string, key: Key, specifier: string)
    requires !key.overloadable || specifier == "" || BuildOverloadedKey(key, specifier) !in SectionOf(store, header)
    ensures Resolve(store, header, key, specifier) == Get(store, header, key.name)
  {
  }

  /** A key that is not overloadable gives the same answer whatever the specifier. */
  lemma SpecifierIgnoredWhenNotOverloadable(store: Store, header: string, key: Key, s1: string, s2: string)
    requires !key.overloadable
    ensures Resolve(store, header, key, s1) == Resolve(store, header, key, s2) == Get(store, header, key.name)
  {
  }

  /** A value is found exactly when the bare key or an applicable override is present; a miss reads as `""`. */
  lemma ResolveFound(store: Store, header: string, key: Key, specifier: string)
    ensures Resolve(store, header, key, specifier).1 <==>
      key.name in SectionOf(store, header) ||
      (key.overloadable && specifier != "" && BuildOverloadedKey(key, specifier) in SectionOf(store, header))
    ensures !Resolve(store, header, key, specifier).1 ==> Resolve(store, header, key, specifier).0 == ""
  {
  }

  /** Every override of a registered key parses back to that key, and to its specifier when it has no further colon. */
  lemma OverridesBelongToKey(entries: Entries, key: Key, raw: string)
    requires key in Keys && raw in Overrides(entries, key)
    ensures KeyLookup(raw) == Some(key)
    ensures raw == BuildOverloadedKey(key, raw[|key.name| + 1..])
    ensures ':' !in raw[|key.name| + 1..] ==> ExtractSpecifier(raw) == raw[|key.name| + 1..]
  {
    var prefix := key.name + ":";
    assert prefix <= raw;
    KeyLookupFindsPrefix(raw, key);
    var specifier := raw[|prefix|..];
    assert raw[..|prefix|] == prefix;
    assert raw == raw[..|prefix|] + specifier;
    KeyNameHasNoColon(key);
    if ':' !in specifier {
      ExtractSpecifierOfOverloadedKey(key, specifier);
    }
  }

  /** For an overloadable key, resolution reads the override map first. */
  lemma ResolveThroughOverrides(store: Store, header: string, key: Key, specifier: string)
    requires key.overloadable && specifier != ""
    ensures var over := Overrides(SectionOf(store, header), key);
      Resolve(store, header, key, specifier) ==
        if BuildOverloadedKey(key, specifier) in over then (over[BuildOverloadedKey(key, specifier)], true)
        else Get(store, header, key.name)
  {
    var k := BuildOverloadedKey(key, specifier);
    assert key.name + ":" <= k;
  }

  // ---------------------------------------------------------------------------
  // Edits

  /** Setting then getting with the same specifier gives the value back, for an empty specifier or an overloadable key. */
  lemma SetThenResolve(store: Store, header: string, key: Key, specifier: string, value: string)
    requires specifier == "" || key.overloadable
    ensures Resolve(Set(store, header, EffectiveKey(key, specifier), value), header, key, specifier) == (value, true)
  {
  }

  /**
   * A non-empty specifier on a key that is not overloadable is still written
   * (the overloadable flag is not checked), but no later get ever reads it.
   */
  lemma SetOfPlainKeyWithSpecifierIsUnread(store: Store, header: string, key: Key, specifier: string, value: string, h: string, s: string)
    requires !key.overloadable && specifier != ""
    ensures Resolve(Set(store, header, EffectiveKey(key, specifier), value), h, key, s) == Resolve(store, h, key, s)
  {
    assert |EffectiveKey(key, specifier)| > |key.name|;
  }

  /** Deleting with the same specifier makes the entry unreadable; a bare delete leaves overrides readable. */
  lemma DeleteThenResolve(store: Store, header: string, key: Key, specifier: string)
    ensures specifier == "" ==> Resolve(Remove(store, header, EffectiveKey(key, specifier)), header, key, "") == ("", false)
    ensures specifier != "" ==>
      Get(Remove(store, header, EffectiveKey(key, specifier)), header, BuildOverloadedKey(key, specifier)) == ("", false)
  {
  }

  /** A bare set or delete leaves the overrides of that key alone; a specifier set adds exactly one override. */
  lemma OverridesAfterSet(store: Store, header: string, key: Key, specifier: string, value: string)
    ensures var after := SectionOf(Set(store, header, EffectiveKey(key, specifier), value), header);
      Overrides(after, key) ==
        if specifier == "" then Overrides(SectionOf(store, header), key)
        else Overrides(SectionOf(store, header), key)[BuildOverloadedKey(key, specifier) := value]
  {
    var after := SectionOf(Set(store, header, EffectiveKey(key, specifier), value), header);
    assert after == SectionOf(store, header)[EffectiveKey(key, specifier) := value];
    if specifier == "" {
      assert !(key.name + ":" <= key.name);
    } else {
      assert key.name + ":" <= BuildOverloadedKey(key, specifier);
    }
  }

  /** An edit changes only the section it names. */
  lemma EditTouchesOnlyItsSection(store: Store, e: Edit, header: string)
    requires e.WellKinded() && header != e.Header()
    ensures header in ApplyEdit(store, e) <==> header in store
    ensures SectionOf(ApplyEdit(store, e), header) == SectionOf(store, header)
  {
  }

  /** An edit of one `Remote` instance leaves every other instance's answers unchanged. */
  lemma OtherInstancesUnchanged(store: Store, e: Edit, other: string, key: Key, specifier: string)
    requires e.NamedDelete? || e.NamedSectionSet? || e.NamedSectionDelete?
    requires e.WellKinded() && e.section == Remote && other != e.name
    ensures Resolve(ApplyEdit(store, e), BuildSectionName(Remote, other), key, specifier) ==
            Resolve(store, BuildSectionName(Remote, other), key, specifier)
  {
    SectionNameInjective(e.name, other);
    EditTouchesOnlyItsSection(store, e, BuildSectionName(Remote, other));
  }

  /** A whole-section delete removes the header and every answer under it. */
  lemma DeleteRemovesSection(store: Store, e: Edit, key: Key, specifier: string)
    requires e.WellKinded() && (e.Delete? || e.NamedDelete?)
    ensures e.Header() !in ApplyEdit(store, e)
    ensures Resolve(ApplyEdit(store, e), e.Header(), key, specifier) == ("", false)
  {
  }

  /** Two batches applied one after the other equal their concatenation applied at once. */
  lemma {:induction false} ApplyEditsConcat(store: Store, first: seq<Edit>, second: seq<Edit>)
    requires AllWellKinded(first) && AllWellKinded(second)
    ensures AllWellKinded(first + second)
    ensures ApplyEdits(store, first + second) == ApplyEdits(ApplyEdits(store, first), second)
    decreases |second|
  {
    var both := first + second;
    assert AllWellKinded(both) by {
      forall i | 0 <= i < |both| ensures both[i].WellKinded() {
        if i >= |first| { assert both[i] == second[i - |first|]; }
      }
    }
    if second == [] {
      assert both == first;
    } else {
      var init := second[..|second| - 1];
      assert AllWellKinded(init) by {
        forall i | 0 <= i < |init| ensures init[i].WellKinded() { assert init[i] == second[i]; }
      }
      assert both[..|both| - 1] == first + init;
      assert both[|both| - 1] == second[|second| - 1];
      ApplyEditsConcat(store, first, init);
    }
  }

  // ---------------------------------------------------------------------------
  // Named sections

  /** The `Remote` headers are exactly `Remote` and the headers that start with `Remote "`. */
  lemma NamedHeadersOfRemote(store: Store, h: string)
    ensures h in NamedHeaders(store, Remote) <==> h in store && (h == RemoteWord || RemoteWord + " \"" <= h)
  {
    SectionLookupExactly(h, Remote);
  }

  /** A stored instance is listed, and its instance name can be read back from the header. */
  lemma InstanceListed(store: Store, name: string)
    requires BuildSectionName(Remote, name) in store
    ensures BuildSectionName(Remote, name) in NamedHeaders(store, Remote)
    ensures '"' !in name && ':' !in name ==> ExtractSpecifier(BuildSectionName(Remote, name)) == name
  {
    SectionLookupOfSectionName(name);
    if '"' !in name && ':' !in name {
      ExtractSpecifierOfSectionName(name);
    }
  }

  /** Setting a key of an instance lists it; deleting the instance unlists it and nothing else. */
  lemma NamedHeadersAfterEdit(store: Store, e: Edit)
    requires e.WellKinded() && e.section == Remote && (e.NamedSectionSet? || e.NamedDelete?)
    ensures e.NamedSectionSet? ==>
      NamedHeaders(ApplyEdit(store, e), Remote) == NamedHeaders(store, Remote) + {e.Header()}
    ensures e.NamedDelete? ==>
      NamedHeaders(ApplyEdit(store, e), Remote) == NamedHeaders(store, Remote) - {e.Header()}
  {
    SectionLookupOfSectionName(e.name);
  }
}
