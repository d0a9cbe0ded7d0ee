/** The window's localised texts: an English and a Turkish table, chosen by
    the two-letter language code of the user interface, with lookups that
    fall back to the key itself. */
module Resources {

  /** The keys both tables define. */
  const Keys: set<string> := {"Score", "Speed", "GameOver", "Restart", "AppTitle"}

  function EnglishResources(): (r: map<string, string>)
    ensures r.Keys == Keys
  {
    map[
      "Score" := "Score: {0}",
      "Speed" := "Speed: {0} fps",
      "GameOver" := "Game Over!",
      "Restart" := "Restart",
      "AppTitle" := "WPF Snake"]
  }

  function TurkishResources(): (r: map<string, string>)
    ensures r.Keys == Keys
    ensures r != EnglishResources()
  {
    map[
      "Score" := "Skor: {0}",
      "Speed" := "Hız: {0} fps",
      "GameOver" := "Oyun Bitti!",
      "Restart" := "Yeniden Başlat",
      "AppTitle" := "WPF Yılan"]
  }

  /** The table for a language code: Turkish for "tr", English otherwise. */
  function ResourcesFor(culture: string): (r: map<string, string>)
    ensures r == TurkishResources() <==> culture == "tr"
    ensures r == EnglishResources() <==> culture != "tr"
  {
    if culture == "tr" then TurkishResources() else EnglishResources()
  }

  /** The entry for `key`, if any (the dictionary's TryGetValue). */
  function TryGetValue(m: map<string, string>, key: string): Option<string> {
    if key in m then Some(m[key]) else None
  }

  datatype Option<T> = None | Some(value: T)

  class ResourceManager {
    const resources: map<string, string>

    /** `culture` is the user interface's two-letter language code. */
    constructor (culture: string)
      ensures resources == ResourcesFor(culture)
    {
      resources := ResourcesFor(culture);
    }

    /** The text stored for `key`, or `key` itself when there is none. */
    function GetString(key: string): (r: string)
      ensures key in resources ==> r == resources[key]
      ensures key !in resources ==> r == key
    {
      match TryGetValue(resources, key)
      case Some(value) => value
      case None => key
    }
  }

  /** Whatever the language, the table defines exactly the same keys. */
  lemma TablesDefineSameKeys(culture: string)
    ensures ResourcesFor(culture).Keys == Keys
  {
  }

  /** A manager's lookup is the chosen table's entry for a known key, the
      English entry for a known key under any code but "tr", and the key
      itself for any other key. */
  lemma GetStringByCulture(culture: string, rm: ResourceManager, key: string)
    requires rm.resources == ResourcesFor(culture)
    ensures key in Keys ==> rm.GetString(key) == ResourcesFor(culture)[key]
    ensures key in Keys && culture == "tr" ==> rm.GetString(key) == TurkishResources()[key]
    ensures key in Keys && culture != "tr" ==> rm.GetString(key) == EnglishResources()[key]
    ensures key !in Keys ==> rm.GetString(key) == key
  {
    TablesDefineSameKeys(culture);
  }
}
