/** The catalog controller (app/ray/rcomic/control/RComic.java) as an object
    whose fields are the two comic lists, the host table and the single
    "current search task" slot. Its threads are replaced by sequential steps:
    a load callback, one turn of the search loop, a search request. */
module Controller {
  import opened Wrappers
  import opened JavaStrings
  import opened ComicWrapping
  import opened Catalog

  /** A count-down latch: it opens once its count reaches zero, and a
      count-down on an open latch has no effect. */
  class Countdown {
    var count: nat

    constructor (count: nat)
      ensures this.count == count
    {
      this.count := count;
    }

    method CountDown()
      modifies this
      ensures count == if old(count) == 0 then 0 else old(count) - 1
    {
      if count > 0 {
        count := count - 1;
      }
    }
  }

  /** How `preprogress` ends: the latch opened and the completion listener
      was run (or was null), or the caller stays blocked in `await`. */
  datatype LoadOutcome = Completed(listenerRan: bool) | Blocked

  /** A search result handed to the consumer with the given identifier. */
  datatype Delivery = Delivery(consumer: nat, result: seq<ComicWrapper>)

  /** The result a search for `keyword` hands to `consumer` when run over
      `comics`, unless its filtering step raised first. */
  function SearchDelivery(comics: seq<ComicWrapper>, keyword: string, consumer: Callback,
                          filterRaises: bool): (d: Option<Delivery>)
    reads Footprint(comics)
    ensures d.Some? <==> consumer.Present? && !filterRaises
    ensures d.Some? ==> d.value.consumer == consumer.id && d.value.result == SearchResult(comics, keyword)
  {
    if consumer.Null? || filterRaises then None
    else Some(Delivery(consumer.id, SearchResult(comics, keyword)))
  }

  /** One search request: the keyword and consumer its runnable captured, and
      whether it has been executed. */
  class SearchTask {
    const keyword: string
    const consumer: Callback
    var isFinish: bool

    constructor (keyword: string, consumer: Callback)
      ensures this.keyword == keyword && this.consumer == consumer && !isFinish
    {
      this.keyword := keyword;
      this.consumer := consumer;
      this.isFinish := false;
    }

    /** Runs the captured search over the controller's list as it is now,
        then marks the task finished whether or not the runnable raised.
        `filterRaises` says whether the runnable raised before handing its
        result to the consumer; one raised by the consumer itself comes after
        the hand-over and does not change the outcome. */
    method Execute(comics: seq<ComicWrapper>, filterRaises: bool) returns (delivered: Option<Delivery>)
      modifies this`isFinish
      ensures isFinish
      ensures delivered == SearchDelivery(comics, keyword, consumer, filterRaises)
    {
      if filterRaises {
        delivered := None;
      } else {
        var list := SearchResult(comics, keyword);
        if consumer.Present? {
          delivered := Some(Delivery(consumer.id, list));
        } else {
          delivered := None;
        }
      }
      assert delivered == SearchDelivery(comics, keyword, consumer, filterRaises);
      assert this !in Footprint(comics);
      isFinish := true;
    }
  }

  class RComic {
    /** The escaped-text repair every wrapper it builds applies. */
    const normalize: string -> string
    var comics: seq<ComicWrapper>
    var newComics: seq<ComicWrapper>
    var hostList: Option<map<string, string>>
    var searchTask: SearchTask?

    /** Both lists start empty, the host table null and the search slot empty. */
    constructor (normalize: string -> string)
      ensures this.normalize == normalize
      ensures comics == [] && newComics == [] && hostList == None && searchTask == null
    {
      this.normalize := normalize;
      comics := [];
      newComics := [];
      hostList := None;
      searchTask := null;
    }

    /** The full-catalog callback. A new empty list is published first and
        then filled in place, so after `i` steps the published list wraps the
        first `i` delivered comics. */
    method OnAllLoaded(delivered: seq<Comic>)
      modifies this`comics
      ensures Wraps(comics, delivered, normalize)
    {
      comics := [];
      for i := 0 to |delivered|
        invariant Wraps(comics, delivered[..i], normalize)
      {
        var w := new ComicWrapper(delivered[i], normalize);
        comics := comics + [w];
      }
      assert delivered[..|delivered|] == delivered;
    }

    /** The newest-catalog callback, built the same way. */
    method OnNewestLoaded(delivered: seq<Comic>)
      modifies this`newComics
      ensures Wraps(newComics, delivered, normalize)
    {
      newComics := [];
      for i := 0 to |delivered|
        invariant Wraps(newComics, delivered[..i], normalize)
      {
        var w := new ComicWrapper(delivered[i], normalize);
        newComics := newComics + [w];
      }
      assert delivered[..|delivered|] == delivered;
    }

    /** The host-table callback: the table is replaced wholesale. */
    method OnHostListLoaded(hosts: map<string, string>)
      modifies this`hostList
      ensures hostList == Some(hosts)
    {
      hostList := Some(hosts);
    }

    /** Runs one load callback and counts the latch down. */
    method Deliver(e: LoadEvent, latch: Countdown)
      modifies this`comics, this`newComics, this`hostList, latch
      ensures latch.count == Remaining(old(latch.count), 1)
      ensures e.AllLoaded? ==> Wraps(comics, e.comics, normalize)
      ensures e.NewestLoaded? ==> Wraps(newComics, e.comics, normalize)
      ensures e.HostListLoaded? ==> hostList == Some(e.hosts)
      ensures !e.AllLoaded? ==> comics == old(comics)
      ensures !e.NewestLoaded? ==> newComics == old(newComics)
      ensures !e.HostListLoaded? ==> hostList == old(hostList)
    {
      match e {
        case AllLoaded(cs) => OnAllLoaded(cs);
        case NewestLoaded(cs) => OnNewestLoaded(cs);
        case HostListLoaded(h) => OnHostListLoaded(h);
      }
      latch.CountDown();
    }

    /** `preprogress(completeListener)`, with the three fetches' callbacks
        arriving as `events`, in order. A latch of three is counted down once
        per callback; `await` returns once the count is zero, or early when
        the waiting thread is `interrupted`; the listener then runs if it is
        not null. Each piece of the catalog ends up as its last
        callback delivered it, or as it was if no callback for it came. */
    method Preprogress(events: seq<LoadEvent>, completeListener: Callback, interrupted: bool)
      returns (outcome: LoadOutcome)
      modifies this`comics, this`newComics, this`hostList
      ensures outcome == if Remaining(3, |events|) == 0 || interrupted
                         then Completed(completeListener.Present?) else Blocked
      ensures match LastOf(events, AllComics)
              case Some(e) => Wraps(comics, e.comics, normalize)
              case None => comics == old(comics)
      ensures match LastOf(events, NewestComics)
              case Some(e) => Wraps(newComics, e.comics, normalize)
              case None => newComics == old(newComics)
      ensures match LastOf(events, HostTable)
              case Some(e) => hostList == Some(e.hosts)
              case None => hostList == old(hostList)
    {
      var latch := new Countdown(3);
      for k := 0 to |events|
        invariant latch.count == Remaining(3, k)
        invariant match LastOf(events[..k], AllComics)
                  case Some(e) => Wraps(comics, e.comics, normalize)
                  case None => comics == old(comics)
        invariant match LastOf(events[..k], NewestComics)
                  case Some(e) => Wraps(newComics, e.comics, normalize)
                  case None => newComics == old(newComics)
        invariant match LastOf(events[..k], HostTable)
                  case Some(e) => hostList == Some(e.hosts)
                  case None => hostList == old(hostList)
      {
        assert events[..k + 1][..k] == events[..k];
        Deliver(events[k], latch);
      }
      assert events[..|events|] == events;
      // An interrupted `await` is caught and logged, and the listener runs anyway.
      if latch.count == 0 || interrupted {
        outcome := Completed(completeListener.Present?);
      } else {
        outcome := Blocked;
      }
    }

    /** `search(keyword, consumer)`: the slot is overwritten with a fresh,
        unfinished task; a task left there that had not run is dropped. */
    method Search(keyword: string, consumer: Callback)
      modifies this`searchTask
      ensures fresh(searchTask)
      ensures searchTask.keyword == keyword && searchTask.consumer == consumer
      ensures !searchTask.isFinish
    {
      searchTask := new SearchTask(keyword, consumer);
    }

    /** One turn of the search loop: with the slot empty or its task finished
        nothing happens; otherwise the task in the slot is executed, over the
        list as it is now, and ends finished. */
    method SearchStep(filterRaises: bool) returns (ran: bool, delivered: Option<Delivery>)
      modifies searchTask
      ensures searchTask == old(searchTask)
      ensures ran <==> old(searchTask) != null && !old(searchTask.isFinish)
      ensures searchTask != null ==> searchTask.isFinish
      ensures ran ==> delivered == SearchDelivery(comics, searchTask.keyword, searchTask.consumer, filterRaises)
      ensures !ran ==> delivered == None
    {
      var task := searchTask;
      if task == null || task.isFinish {
        ran, delivered := false, None;
      } else {
        ran := true;
        delivered := task.Execute(comics, filterRaises);
      }
    }

    /** `searchAllById(id)` */
    method SearchAllById(id: string) returns (r: Result<ComicWrapper, LookupError>)
      ensures r == FindById(comics, id)
    {
      r := FindById(comics, id);
    }

    /** `searchAllById(id, consumer)`: the consumer receives the first comic
        with the id; when there is none the lookup raises before any call. */
    method SearchAllByIdThen(id: string) returns (calls: seq<ComicWrapper>, raised: bool)
      ensures raised <==> forall j :: 0 <= j < |comics| ==> comics[j].Id() != id
      ensures raised ==> calls == []
      ensures !raised ==> calls == [FindById(comics, id).value]
    {
      var r := FindById(comics, id);
      if r.Success? {
        calls, raised := [r.value], false;
      } else {
        calls, raised := [], true;
      }
    }

    /** `searchNewById(id)` */
    method SearchNewById(id: string) returns (r: Result<ComicWrapper, LookupError>)
      ensures r == FindById(newComics, id)
    {
      r := FindById(newComics, id);
    }

    /** The url rewrite `loadEpisodesImagesPagesUrl` applies before fetching
        the episode's detail. The host table is read first, so it must have
        been loaded even for an absolute url. */
    method LoadEpisodesImagesPagesUrl(episode: Episode)
      requires hostList.Some?
      requires StartsWith(episode.url, "http") || episode.catid in hostList.value
      modifies episode`url
      ensures episode.url == ResolveUrl(hostList.value, episode.catid, old(episode.url))
      ensures EndsWith(episode.url, old(episode.url))
    {
      var hosts := hostList.value;
      if !StartsWith(episode.url, "http") {
        episode.url := hosts[episode.catid] + episode.url;
      }
    }
  }

  /** Latest wins: of two searches requested before the loop turns, only the
      second runs, its result reaches only its own consumer, and it runs once. */
  method LatestSearchWins(normalize: string -> string, all: seq<Comic>, k1: string, k2: string)
    returns (listed: seq<ComicWrapper>, first: Option<Delivery>, secondRan: bool)
    ensures |listed| == |all| && forall i :: 0 <= i < |all| ==> listed[i].comic == all[i]
    ensures first == Some(Delivery(2, SearchResult(listed, k2)))
    ensures !secondRan
  {
    var rc := new RComic(normalize);
    rc.OnAllLoaded(all);
    listed := rc.comics;
    rc.Search(k1, Present(1));
    rc.Search(k2, Present(2));
    var ran;
    ran, first := rc.SearchStep(false);
    assert rc.comics == listed;
    assert first == Some(Delivery(2, SearchResult(listed, k2)));
    assert rc.searchTask !in Footprint(listed);
    var second;
    secondRan, second := rc.SearchStep(false);
  }
}
