/**
 * The settings provider (contexts/UserSettingsContext.tsx): a state cell
 * holding the current settings object, initialised from the service, replaced
 * by every operation, with each new value persisted through the service.
 */
module SettingsContext {
  import opened Collections
  import opened SettingsService

  /** The provider's `addFavorite` value: `id` appended, even when already present. */
  function Appended(v: SettingsValue, id: string): (r: SettingsValue)
    ensures |r.favorites| == |v.favorites| + 1
    ensures r.favorites[..|v.favorites|] == v.favorites && r.favorites[|v.favorites|..] == [id]
    ensures r.sortBy == v.sortBy && r.category == v.category
  {
    v.(favorites := v.favorites + [id])
  }

  /** Appending always adds one more occurrence, so a present id is duplicated. */
  lemma AppendedCount(v: SettingsValue, id: string)
    ensures Count(Appended(v, id).favorites, id) == Count(v.favorites, id) + 1
    ensures id in v.favorites ==> !NoDuplicates(Appended(v, id).favorites)
  {
    CountAppend(v.favorites, [id], id);
    assert [id][1..] == [];
    if id in v.favorites {
      var i :| 0 <= i < |v.favorites| && v.favorites[i] == id;
      var r := Appended(v, id).favorites;
      assert r[i] == id && r[|r| - 1] == id;
    }
  }

  /** Adding an absent favorite and removing it again restores the record. */
  lemma {:induction false} AppendThenRemove(v: SettingsValue, id: string)
    requires id !in v.favorites
    ensures WithoutFavorite(Appended(v, id), id) == v
  {
    FilterAppend(v.favorites, [id], IsNot(id));
    assert Filter([id], IsNot(id)) == [] by {
      assert [id][1..] == [];
    }
  }

  class SettingsProvider {
    var settings: Settings
    const service: SettingsService

    /** `useState(getSettings())`. */
    constructor (service: SettingsService)
      ensures this.service == service
      ensures settings.Value() == service.Current()
      ensures Load(service.storage.readFails, service.storage.items).None? ==> settings == service.defaultSettings
    {
      var initial := service.GetSettings();
      this.service := service;
      settings := initial;
    }

    method AddFavorite(productId: string)
      modifies this`settings, service.storage`items
      ensures fresh(settings) && settings.Value() == Appended(old(settings.Value()), productId)
      ensures service.storage.items == AfterSave(old(service.storage.items), service.storage.writeFails, settings.Value())
    {
      var next := new Settings(Appended(settings.Value(), productId));
      service.SaveSettings(next);
      settings := next;
    }

    method RemoveFavorite(productId: string)
      modifies this`settings, service.storage`items
      ensures fresh(settings) && settings.Value() == WithoutFavorite(old(settings.Value()), productId)
      ensures service.storage.items == AfterSave(old(service.storage.items), service.storage.writeFails, settings.Value())
    {
      var v := settings.Value();
      var next := new Settings(v.(favorites := Filter(v.favorites, IsNot(productId))));
      service.SaveSettings(next);
      settings := next;
    }

    /** `updateSettings(s)`: persist `s`, then hold that very object as the state. */
    method UpdateSettings(newSettings: Settings)
      modifies this`settings, service.storage`items
      ensures settings == newSettings
      ensures service.storage.items == AfterSave(old(service.storage.items), service.storage.writeFails, newSettings.Value())
    {
      service.SaveSettings(newSettings);
      settings := newSettings;
    }
  }
}
