/** The catalog entities as plain field records, and the decorator that
    presents a raw comic with its display text normalised at read time
    (app/ray/rcomic/control/ComicWrapper.java). */
module ComicWrapping {
  import opened Wrappers
  import opened JavaStrings

  /** One chapter of a comic; its url is rewritten in place once the host
      table is known. */
  class Episode {
    var name: string
    var url: string
    var catid: string

    constructor (name: string, url: string, catid: string)
      ensures this.name == name && this.url == url && this.catid == catid
    {
      this.name := name;
      this.url := url;
      this.catid := catid;
    }
  }

  /** A raw catalog entry as delivered by the catalog library, with a setter
      per field. Only `description` is modelled as possibly null. */
  class Comic {
    var id: string
    var name: string
    var author: string
    var description: Option<string>
    var iconUrl: string
    var smallIconUrl: string
    var newestEpisode: string
    var latestUpdateDateTime: string
    var episodes: seq<Episode>

    constructor (id: string, name: string, author: string, description: Option<string>,
                 iconUrl: string, smallIconUrl: string, newestEpisode: string,
                 latestUpdateDateTime: string, episodes: seq<Episode>)
      ensures this.id == id && this.name == name && this.author == author
      ensures this.description == description
      ensures this.iconUrl == iconUrl && this.smallIconUrl == smallIconUrl
      ensures this.newestEpisode == newestEpisode
      ensures this.latestUpdateDateTime == latestUpdateDateTime
      ensures this.episodes == episodes
    {
      this.id := id;
      this.name := name;
      this.author := author;
      this.description := description;
      this.iconUrl := iconUrl;
      this.smallIconUrl := smallIconUrl;
      this.newestEpisode := newestEpisode;
      this.latestUpdateDateTime := latestUpdateDateTime;
      this.episodes := episodes;
    }
  }

  /** A read-time view of exactly one `Comic`. It keeps a reference to the
      wrapped comic and no copy of any of its fields; `normalize` is the text
      repair applied to name, author and description on every read. */
  class ComicWrapper {
    const comic: Comic
    const normalize: string -> string

    constructor (comic: Comic, normalize: string -> string)
      ensures this.comic == comic && this.normalize == normalize
    {
      this.comic := comic;
      this.normalize := normalize;
    }

    /** `get()`: the wrapped comic itself. */
    function Get(): Comic
    {
      comic
    }

    function Name(): string
      reads comic
    {
      normalize(comic.name)
    }

    function Author(): string
      reads comic
    {
      normalize(comic.author)
    }

    /** A null description stays null; any other is normalised. */
    function Description(): (r: Option<string>)
      reads comic
      ensures r.None? <==> comic.description.None?
      ensures r.Some? ==> r.value == normalize(comic.description.value)
    {
      match comic.description
      case None => None
      case Some(d) => Some(normalize(d))
    }

    function Id(): string
      reads comic
    {
      comic.id
    }

    function Episodes(): seq<Episode>
      reads comic
    {
      comic.episodes
    }

    function IconUrl(): string
      reads comic
    {
      comic.iconUrl
    }

    function SmallIconUrl(): string
      reads comic
    {
      comic.smallIconUrl
    }

    function LatestUpdateDateTime(): string
      reads comic
    {
      comic.latestUpdateDateTime
    }

    function NewestEpisode(): string
      reads comic
    {
      comic.newestEpisode
    }

    /** The list label: the normalised name, then the newest episode's label
        in square brackets. */
    function NameWithNewestEpisode(): (r: string)
      reads comic
      ensures |r| == |Name()| + |NewestEpisode()| + 2
      ensures StartsWith(r, Name()) && r[|Name()|] == '['
      ensures r[|Name()| + 1..|r| - 1] == NewestEpisode()
      ensures EndsWith(r, "]")
    {
      var r := Name() + "[" + NewestEpisode() + "]";
      assert r[..|Name()|] == Name();
      assert r[|Name()| + 1..|r| - 1] == NewestEpisode();
      assert r[|r| - 1..] == "]";
      r
    }

    /** `getEpisodesName(consumer)`: the consumer is handed, once per episode
        and in episode order, a one-element array with the episode's raw
        name; a null consumer receives nothing. */
    method EpisodesName(consumer: Callback) returns (calls: seq<seq<string>>)
      ensures consumer.Null? ==> calls == []
      ensures consumer.Present? ==> |calls| == |comic.episodes|
      ensures consumer.Present? ==>
        forall i :: 0 <= i < |calls| ==> calls[i] == [comic.episodes[i].name]
    {
      var episodes := comic.episodes;
      calls := [];
      for i := 0 to |episodes|
        invariant consumer.Null? ==> calls == []
        invariant consumer.Present? ==> |calls| == i
        invariant consumer.Present? ==>
          forall j :: 0 <= j < i ==> calls[j] == [episodes[j].name]
      {
        if consumer.Present? {
          calls := calls + [[episodes[i].name]];
        }
      }
    }

    method SetName(name: string)
      modifies comic`name
      ensures comic.name == name && Name() == normalize(name)
    {
      comic.name := name;
    }

    method SetAuthor(author: string)
      modifies comic`author
      ensures comic.author == author && Author() == normalize(author)
    {
      comic.author := author;
    }

    method SetDescription(description: Option<string>)
      modifies comic`description
      ensures comic.description == description
      ensures description.Some? ==> Description() == Some(normalize(description.value))
      ensures description.None? ==> Description() == None
    {
      comic.description := description;
    }

    method SetId(id: string)
      modifies comic`id
      ensures comic.id == id && Id() == id
    {
      comic.id := id;
    }

    method SetEpisodes(episodes: seq<Episode>)
      modifies comic`episodes
      ensures comic.episodes == episodes && Episodes() == episodes
    {
      comic.episodes := episodes;
    }

    method SetIconUrl(iconUrl: string)
      modifies comic`iconUrl
      ensures comic.iconUrl == iconUrl && IconUrl() == iconUrl
    {
      comic.iconUrl := iconUrl;
    }

    method SetSmallIconUrl(smallIconUrl: string)
      modifies comic`smallIconUrl
      ensures comic.smallIconUrl == smallIconUrl && SmallIconUrl() == smallIconUrl
    {
      comic.smallIconUrl := smallIconUrl;
    }

    method SetLatestUpdateDateTime(latestUpdateDateTime: string)
      modifies comic`latestUpdateDateTime
      ensures comic.latestUpdateDateTime == latestUpdateDateTime
      ensures LatestUpdateDateTime() == latestUpdateDateTime
    {
      comic.latestUpdateDateTime := latestUpdateDateTime;
    }

    method SetNewestEpisode(newestEpisode: string)
      modifies comic`newestEpisode
      ensures comic.newestEpisode == newestEpisode && NewestEpisode() == newestEpisode
    {
      comic.newestEpisode := newestEpisode;
    }
  }

  /** The pass-through getters are a view too: writes made directly on the
      comic returned by `Get()` to its episodes, icons, update time and newest
      episode are what those getters report next, and name and id stay. */
  method DirectWritePassesThrough(w: ComicWrapper, episodes: seq<Episode>, iconUrl: string,
                                  smallIconUrl: string, latestUpdateDateTime: string,
                                  newestEpisode: string)
    modifies w.comic
    ensures w.Episodes() == episodes && w.IconUrl() == iconUrl
    ensures w.SmallIconUrl() == smallIconUrl
    ensures w.LatestUpdateDateTime() == latestUpdateDateTime
    ensures w.NewestEpisode() == newestEpisode
    ensures w.Name() == old(w.Name()) && w.Id() == old(w.Id())
  {
    var c := w.Get();
    c.episodes := episodes;
    c.iconUrl := iconUrl;
    c.smallIconUrl := smallIconUrl;
    c.latestUpdateDateTime := latestUpdateDateTime;
    c.newestEpisode := newestEpisode;
  }

  /** The view holds no copies: writes made directly on the comic returned
      by `Get()`, bypassing the wrapper's setters, are what `Name()`,
      `Author()`, `Description()` and `Id()` report next, and the label starts
      with the new normalised name. */
  method DirectWriteIsVisible(w: ComicWrapper, name: string, author: string,
                              description: Option<string>, id: string)
    modifies w.comic
    ensures w.Name() == w.normalize(name) && w.Author() == w.normalize(author)
    ensures description.None? ==> w.Description() == None
    ensures description.Some? ==> w.Description() == Some(w.normalize(description.value))
    ensures w.Id() == id
    ensures StartsWith(w.NameWithNewestEpisode(), w.normalize(name))
  {
    var c := w.Get();
    c.name := name;
    c.author := author;
    c.description := description;
    c.id := id;
  }
}
