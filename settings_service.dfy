/**
 * The persisted user settings (services/userSettingsService.ts): one settings
 * record stored as JSON under a single key of the browser's key-value store,
 * with a shared module-level default object that callers receive, and then
 * mutate, whenever nothing usable is stored.
 */
module SettingsService {
  import opened Wrappers
  import opened Collections

  const SettingsKey: string := "gcpReleaseNotesTrackerSettings"

  /** The contents of a settings record: `favorites`, `sortBy` and `filter.category`. */
  datatype SettingsValue = SettingsValue(favorites: seq<string>, sortBy: string, category: Option<string>)

  const DefaultValue: SettingsValue := SettingsValue([], "name", None)

  /** A stored string: empty (falsy), the JSON text of a record, or text `JSON.parse` rejects. */
  datatype StoredText = EmptyText | Serialized(value: SettingsValue) | Unparsable(raw: string)

  /** The record `getSettings` parses from the store, or `None` when it falls back
      to the default: the read throws, the key is absent, the text is empty or
      it does not parse. */
  function Load(readFails: bool, items: map<string, StoredText>): (r: Option<SettingsValue>)
    ensures r.Some? <==> !readFails && SettingsKey in items && items[SettingsKey].Serialized?
    ensures r.Some? ==> items[SettingsKey] == Serialized(r.value)
  {
    if readFails || SettingsKey !in items then None
    else match items[SettingsKey]
      case Serialized(v) => Some(v)
      case _ => None
  }

  /** The store after `saveSettings(v)`: only the settings key changes, and a
      write that throws changes nothing. */
  function AfterSave(items: map<string, StoredText>, writeFails: bool, v: SettingsValue): (r: map<string, StoredText>)
    ensures r.Keys == items.Keys + (if writeFails then {} else {SettingsKey})
    ensures forall k :: k in items && k != SettingsKey ==> r[k] == items[k]
    ensures !writeFails ==> r[SettingsKey] == Serialized(v)
    ensures writeFails ==> r == items
  {
    if writeFails then items else items[SettingsKey := Serialized(v)]
  }

  /** The record after `addFavorite(id)`: `id` is appended unless already present. */
  function WithFavorite(v: SettingsValue, id: string): (r: SettingsValue)
    ensures id in r.favorites
    ensures r.sortBy == v.sortBy && r.category == v.category
    ensures forall x :: x in v.favorites ==> x in r.favorites
    ensures |r.favorites| == |v.favorites| + (if id in v.favorites then 0 else 1)
    ensures r.favorites[..|v.favorites|] == v.favorites
  {
    if id in v.favorites then v else v.(favorites := v.favorites + [id])
  }

  /** `addFavorite` adds one occurrence of a missing id and changes no other count. */
  lemma WithFavoriteCount(v: SettingsValue, id: string, x: string)
    ensures Count(WithFavorite(v, id).favorites, x)
      == Count(v.favorites, x) + (if x == id && id !in v.favorites then 1 else 0)
  {
    if id !in v.favorites {
      CountAppend(v.favorites, [id], x);
      assert [id][1..] == [];
    }
  }

  function IsNot(id: string): string -> bool {
    (x: string) => x != id
  }

  /** The record with every occurrence of `id` filtered out of `favorites`. */
  function WithoutFavorite(v: SettingsValue, id: string): (r: SettingsValue)
    ensures id !in r.favorites
    ensures r.sortBy == v.sortBy && r.category == v.category
    ensures forall x :: x in v.favorites && x != id ==> x in r.favorites
    ensures Subsequence(r.favorites, v.favorites)
  {
    FilterIsSubsequence(v.favorites, IsNot(id));
    v.(favorites := Filter(v.favorites, IsNot(id)))
  }

  /** `addFavorite` never introduces a duplicate. */
  lemma WithFavoriteNoDuplicates(v: SettingsValue, id: string)
    requires NoDuplicates(v.favorites)
    ensures NoDuplicates(WithFavorite(v, id).favorites)
  {
  }

  /** Adding a favorite that is already there changes nothing. */
  lemma WithFavoriteIdempotent(v: SettingsValue, id: string)
    ensures WithFavorite(WithFavorite(v, id), id) == WithFavorite(v, id)
  {
  }

  /** Removal keeps every other id exactly as often as before. */
  lemma WithoutFavoriteCount(v: SettingsValue, id: string, x: string)
    ensures Count(WithoutFavorite(v, id).favorites, x) == if x == id then 0 else Count(v.favorites, x)
  {
    FilterCount(v.favorites, IsNot(id), x);
  }

  /** The browser's key-value store. `readFails` and `writeFails` stand for
      `getItem` and `setItem` throwing (storage denied, quota exceeded). */
  class Storage {
    var items: map<string, StoredText>
    var readFails: bool
    var writeFails: bool

    constructor (items0: map<string, StoredText>, readFails0: bool, writeFails0: bool)
      ensures items == items0 && readFails == readFails0 && writeFails == writeFails0
    {
      items, readFails, writeFails := items0, readFails0, writeFails0;
    }

    /** `getItem(key)`: `thrown`, or the stored text if any. */
    method GetItem(key: string) returns (thrown: bool, text: Option<StoredText>)
      ensures thrown == readFails
      ensures !thrown ==> text == if key in items then Some(items[key]) else None
    {
      thrown := readFails;
      text := if key in items then Some(items[key]) else None;
    }

    /** `setItem(key, text)`: `thrown`, or the key now holds `text`. */
    method SetItem(key: string, text: StoredText) returns (thrown: bool)
      modifies this`items
      ensures thrown == writeFails
      ensures items == if thrown then old(items) else old(items)[key := text]
    {
      thrown := writeFails;
      if !thrown {
        items := items[key := text];
      }
    }
  }

  /** A settings object as the service hands it out: callers mutate it in place. */
  class Settings {
    var favorites: seq<string>
    var sortBy: string
    var category: Option<string>

    function Value(): SettingsValue
      reads this
    {
      SettingsValue(favorites, sortBy, category)
    }

    constructor (v: SettingsValue)
      ensures Value() == v
    {
      favorites, sortBy, category := v.favorites, v.sortBy, v.category;
    }
  }

  /** The service module: the store it writes and its shared `defaultSettings` object. */
  class SettingsService {
    const storage: Storage
    const defaultSettings: Settings

    constructor (storage: Storage)
      ensures this.storage == storage
      ensures fresh(defaultSettings) && defaultSettings.Value() == DefaultValue
    {
      this.storage := storage;
      defaultSettings := new Settings(DefaultValue);
    }

    /** The record `getSettings` would return now. */
    function Current(): (v: SettingsValue)
      reads this, storage, defaultSettings
      ensures Load(storage.readFails, storage.items).Some? ==> storage.items[SettingsKey] == Serialized(v)
      ensures Load(storage.readFails, storage.items).None? ==> v == defaultSettings.Value()
    {
      match Load(storage.readFails, storage.items)
      case Some(v) => v
      case None => defaultSettings.Value()
    }

    /** `getSettings()`: a freshly parsed object, or the shared default object; never throws. */
    method GetSettings() returns (s: Settings)
      ensures Load(storage.readFails, storage.items).None? ==> s == defaultSettings
      ensures Load(storage.readFails, storage.items).Some? ==> fresh(s)
      ensures s.Value() == Current()
    {
      var thrown, text := storage.GetItem(SettingsKey);
      if thrown {
        s := defaultSettings;
      } else {
        match text
        case Some(Serialized(v)) =>
          s := new Settings(v);
        case Some(Unparsable(_)) =>
          s := defaultSettings;
        case _ =>
          s := defaultSettings;
      }
    }

    /** `saveSettings(s)`: writes the one settings key; a failing write is swallowed. */
    method SaveSettings(s: Settings)
      modifies storage`items
      ensures storage.items == AfterSave(old(storage.items), storage.writeFails, s.Value())
    {
      var thrown := storage.SetItem(SettingsKey, Serialized(s.Value()));
    }

    /** `addFavorite(id)`: appends `id` and saves only if it was missing; when
        nothing usable is stored, the shared default object is the one updated. */
    method AddFavorite(productId: string)
      modifies storage`items, defaultSettings
      ensures storage.items == if productId in old(Current()).favorites then old(storage.items)
        else AfterSave(old(storage.items), storage.writeFails, WithFavorite(old(Current()), productId))
      ensures defaultSettings.Value() == if old(Load(storage.readFails, storage.items)).None?
        then WithFavorite(old(Current()), productId) else old(defaultSettings.Value())
      ensures !storage.writeFails ==> Current() == WithFavorite(old(Current()), productId)
    {
      var s := GetSettings();
      if productId !in s.favorites {
        s.favorites := s.favorites + [productId];
        SaveSettings(s);
      }
    }

    /** `removeFavorite(id)`: filters `id` out and always saves; when nothing
        usable is stored, the shared default object is the one updated. */
    method RemoveFavorite(productId: string)
      modifies storage`items, defaultSettings
      ensures storage.items == AfterSave(old(storage.items), storage.writeFails, WithoutFavorite(old(Current()), productId))
      ensures defaultSettings.Value() == if old(Load(storage.readFails, storage.items)).None?
        then WithoutFavorite(old(Current()), productId) else old(defaultSettings.Value())
      ensures !storage.writeFails ==> Current() == WithoutFavorite(old(Current()), productId)
    {
      var s := GetSettings();
      s.favorites := Filter(s.favorites, IsNot(productId));
      SaveSettings(s);
    }
  }

  /** With an empty store whose writes fail, a favorite added through the
      service lands in the shared default, and the next `getSettings` sees it. */
  method DefaultAliasing(productId: string) returns (seen: bool)
    ensures seen
  {
    var storage := new Storage(map[], false, true);
    var service := new SettingsService(storage);
    service.AddFavorite(productId);
    var s := service.GetSettings();
    seen := productId in s.favorites && s == service.defaultSettings;
  }
}
