/** The value-level logic of the catalog controller
    (app/ray/rcomic/control/RComic.java): the keyword filter, the lookup by
    id, the episode URL rule, and what a sequence of load callbacks leaves in
    the catalog. */
module Catalog {
  import opened Wrappers
  import opened JavaStrings
  import opened ComicWrapping

  /** The raw comics a list of wrappers reads through. */
  function Footprint(ws: seq<ComicWrapper>): set<object>
  {
    set w | w in ws :: w.comic
  }

  /** `ws` is a list built by wrapping each comic of `cs`, in order, with the
      text repair `normalize`. */
  ghost predicate Wraps(ws: seq<ComicWrapper>, cs: seq<Comic>, normalize: string -> string)
  {
    |ws| == |cs| &&
    forall i :: 0 <= i < |ws| ==> ws[i].comic == cs[i] && ws[i].normalize == normalize
  }

  // ---------------------------------------------------------------------
  // Keyword search

  /** The comics of `ws`, in list order, whose normalised name contains
      `keyword`. */
  function SearchResult(ws: seq<ComicWrapper>, keyword: string): (r: seq<ComicWrapper>)
    reads Footprint(ws)
    ensures |r| <= |ws|
    ensures forall w :: w in r ==> w in ws && Contains(w.Name(), keyword)
  {
    if ws == [] then []
    else
      var rest := SearchResult(ws[1..], keyword);
      if Contains(ws[0].Name(), keyword) then [ws[0]] + rest else rest
  }

  /** `a` is obtained from `b` by deleting elements, keeping the order. */
  predicate IsSubsequence<T(==)>(a: seq<T>, b: seq<T>)
    decreases |b|
  {
    if a == [] then true
    else if b == [] then false
    else if a[0] == b[0] then IsSubsequence(a[1..], b[1..])
    else IsSubsequence(a, b[1..])
  }

  /** The search result keeps the list order: it is a subsequence of it. */
  lemma {:induction false} SearchResultIsSubsequence(ws: seq<ComicWrapper>, keyword: string)
    ensures IsSubsequence(SearchResult(ws, keyword), ws)
  {
    if ws != [] {
      SearchResultIsSubsequence(ws[1..], keyword);
      var rest := SearchResult(ws[1..], keyword);
      if !Contains(ws[0].Name(), keyword) {
        SubsequenceOfTail(rest, ws);
      }
    }
  }

  lemma {:induction false} SubsequenceOfTail<T>(a: seq<T>, b: seq<T>)
    requires b != [] && IsSubsequence(a, b[1..])
    ensures IsSubsequence(a, b)
    decreases |b|, 0
  {
    if a != [] && a[0] == b[0] {
      SubsequenceDropHead(a, b[1..]);
    }
  }

  lemma {:induction false} SubsequenceDropHead<T>(a: seq<T>, b: seq<T>)
    requires a != [] && IsSubsequence(a, b)
    ensures IsSubsequence(a[1..], b)
    decreases |b|, 1
  {
    if a[0] == b[0] {
      if a[1..] != [] {
        SubsequenceOfTail(a[1..], b);
      }
    } else {
      SubsequenceDropHead(a, b[1..]);
      if a[1..] != [] {
        SubsequenceOfTail(a[1..], b);
      }
    }
  }

  /** A comic is in the result exactly when it is in the list and its
      normalised name contains the keyword. */
  lemma {:induction false} SearchResultMembership(ws: seq<ComicWrapper>, keyword: string, w: ComicWrapper)
    ensures w in SearchResult(ws, keyword) <==> w in ws && Contains(w.Name(), keyword)
  {
    if ws != [] {
      SearchResultMembership(ws[1..], keyword, w);
      assert w in ws <==> w == ws[0] || w in ws[1..];
    }
  }

  /** The filter neither drops nor repeats: each comic occurs in the result
      as often as in the list when its name contains the keyword, and not at
      all otherwise. */
  lemma {:induction false} SearchResultCount(ws: seq<ComicWrapper>, keyword: string, w: ComicWrapper)
    ensures multiset(SearchResult(ws, keyword))[w] ==
            if Contains(w.Name(), keyword) then multiset(ws)[w] else 0
  {
    if ws != [] {
      SearchResultCount(ws[1..], keyword, w);
      assert ws == [ws[0]] + ws[1..];
      assert multiset(ws) == multiset{ws[0]} + multiset(ws[1..]);
    }
  }

  /** Searching for the empty keyword yields the whole list. */
  lemma {:induction false} SearchEmptyKeyword(ws: seq<ComicWrapper>)
    ensures SearchResult(ws, "") == ws
  {
    if ws != [] {
      SearchEmptyKeyword(ws[1..]);
      ContainsEmpty(ws[0].Name());
      assert [ws[0]] + ws[1..] == ws;
    }
  }

  // ---------------------------------------------------------------------
  // Lookup by id

  datatype LookupError = NoSuchElement

  /** Index of the first comic of `ws` with the given id, or `|ws|` if there
      is none. */
  function FirstIndexById(ws: seq<ComicWrapper>, id: string): (i: nat)
    reads Footprint(ws)
    ensures i <= |ws|
    ensures i < |ws| ==> ws[i].Id() == id
    ensures forall j :: 0 <= j < i ==> ws[j].Id() != id
  {
    if ws == [] then 0
    else if ws[0].Id() == id then 0
    else 1 + FirstIndexById(ws[1..], id)
  }

  /** `stream().filter(id matches).findFirst().get()`: the first comic with
      the id, or the exception that `get()` raises on an empty optional. */
  function FindById(ws: seq<ComicWrapper>, id: string): (r: Result<ComicWrapper, LookupError>)
    reads Footprint(ws)
    ensures r.Failure? <==> forall j :: 0 <= j < |ws| ==> ws[j].Id() != id
    ensures r.Success? ==> exists i :: 0 <= i < |ws| && ws[i] == r.value && r.value.Id() == id &&
                                       forall j :: 0 <= j < i ==> ws[j].Id() != id
  {
    var i := FirstIndexById(ws, id);
    if i < |ws| then Success(ws[i]) else Failure(NoSuchElement)
  }

  /** With an index holding the id and no earlier one, the lookup returns the
      comic at that index. */
  lemma FindByIdAt(ws: seq<ComicWrapper>, id: string, i: nat)
    requires i < |ws| && ws[i].Id() == id
    requires forall j :: 0 <= j < i ==> ws[j].Id() != id
    ensures FindById(ws, id) == Success(ws[i])
  {
    var k := FirstIndexById(ws, id);
    assert !(k < i) && !(i < k);
  }

  // ---------------------------------------------------------------------
  // Episode URL resolution

  /** The url an episode is given before its detail is fetched: an absolute
      url (starting with "http") is kept; a relative one gets the host of its
      category prepended. */
  function ResolveUrl(hosts: map<string, string>, catid: string, url: string): (r: string)
    requires StartsWith(url, "http") || catid in hosts
    ensures StartsWith(url, "http") ==> r == url
    ensures !StartsWith(url, "http") ==> StartsWith(r, hosts[catid]) && |r| == |hosts[catid]| + |url|
    ensures EndsWith(r, url)
  {
    if StartsWith(url, "http") then url
    else
      var r := hosts[catid] + url;
      assert r[..|hosts[catid]|] == hosts[catid];
      ContainsSuffix(hosts[catid], url);
      r
  }

  /** Resolution is idempotent once the host is itself absolute: the result
      starts with "http", so resolving it again leaves it unchanged. */
  lemma ResolveUrlIdempotent(hosts: map<string, string>, catid: string, url: string)
    requires catid in hosts && StartsWith(hosts[catid], "http")
    ensures StartsWith(ResolveUrl(hosts, catid, url), "http")
    ensures ResolveUrl(hosts, catid, ResolveUrl(hosts, catid, url)) == ResolveUrl(hosts, catid, url)
  {
    var r := ResolveUrl(hosts, catid, url);
    if !StartsWith(url, "http") {
      assert r[..4] == r[..|hosts[catid]|][..4];
    }
  }

  // ---------------------------------------------------------------------
  // Initial load

  /** What one of the three load callbacks of `preprogress` delivers. */
  datatype LoadEvent =
    | AllLoaded(comics: seq<Comic>)
    | NewestLoaded(comics: seq<Comic>)
    | HostListLoaded(hosts: map<string, string>)

  datatype Source = AllComics | NewestComics | HostTable

  function SourceOf(e: LoadEvent): Source
  {
    match e
    case AllLoaded(_) => AllComics
    case NewestLoaded(_) => NewestComics
    case HostListLoaded(_) => HostTable
  }

  /** The last event from `source` among `events`: each callback replaces its
      piece of the catalog wholesale, so that is the one whose data remains. */
  function LastOf(events: seq<LoadEvent>, source: Source): (r: Option<LoadEvent>)
    ensures r.Some? ==> SourceOf(r.value) == source
  {
    if events == [] then None
    else if SourceOf(events[|events| - 1]) == source then Some(events[|events| - 1])
    else LastOf(events[..|events| - 1], source)
  }

  /** `LastOf` is absent exactly when no event comes from the source, and
      otherwise is an event from that source with none after it. */
  lemma {:induction false} LastOfSpec(events: seq<LoadEvent>, source: Source)
    ensures LastOf(events, source).None? <==> forall i :: 0 <= i < |events| ==> SourceOf(events[i]) != source
    ensures LastOf(events, source).Some? ==>
      exists i :: 0 <= i < |events| && events[i] == LastOf(events, source).value &&
                  forall j :: i < j < |events| ==> SourceOf(events[j]) != source
  {
    if events != [] {
      var n := |events| - 1;
      if SourceOf(events[n]) != source {
        LastOfSpec(events[..n], source);
        assert forall i :: 0 <= i < n ==> events[..n][i] == events[i];
        if LastOf(events, source).Some? {
          var i :| 0 <= i < n && events[..n][i] == LastOf(events, source).value &&
                   forall j :: i < j < n ==> SourceOf(events[..n][j]) != source;
          assert events[i] == LastOf(events, source).value;
        }
      }
    }
  }

  /** The count of a latch started at `n` after `signals` count-downs; a
      latch already at zero stays there. */
  function Remaining(n: nat, signals: nat): (r: nat)
    ensures r == 0 <==> signals >= n
    ensures r <= n
  {
    if signals >= n then 0 else n - signals
  }

  /** When each of the three callbacks fires exactly once, in any order, the
      catalog holds exactly what they delivered and the latch opens. */
  lemma EachCallbackOnce(events: seq<LoadEvent>, all: seq<Comic>, newest: seq<Comic>,
                         hosts: map<string, string>)
    requires multiset(events) == multiset{AllLoaded(all), NewestLoaded(newest), HostListLoaded(hosts)}
    ensures LastOf(events, AllComics) == Some(AllLoaded(all))
    ensures LastOf(events, NewestComics) == Some(NewestLoaded(newest))
    ensures LastOf(events, HostTable) == Some(HostListLoaded(hosts))
    ensures Remaining(3, |events|) == 0
  {
    assert |events| == |multiset(events)| == 3;
    assert forall i :: 0 <= i < |events| ==>
      events[i] in {AllLoaded(all), NewestLoaded(newest), HostListLoaded(hosts)} by {
      forall i | 0 <= i < |events|
        ensures events[i] in {AllLoaded(all), NewestLoaded(newest), HostListLoaded(hosts)}
      {
        assert events[i] in multiset(events);
      }
    }
    LastOnlyOne(events, AllLoaded(all), {AllLoaded(all), NewestLoaded(newest), HostListLoaded(hosts)});
    LastOnlyOne(events, NewestLoaded(newest), {AllLoaded(all), NewestLoaded(newest), HostListLoaded(hosts)});
    LastOnlyOne(events, HostListLoaded(hosts), {AllLoaded(all), NewestLoaded(newest), HostListLoaded(hosts)});
  }

  /** If `e` occurs among `events`, and every event is drawn from `pool` in
      which `e` is the only one from its source, the last from that source is `e`. */
  lemma LastOnlyOne(events: seq<LoadEvent>, e: LoadEvent, pool: set<LoadEvent>)
    requires e in multiset(events)
    requires forall i :: 0 <= i < |events| ==> events[i] in pool
    requires forall x :: x in pool && SourceOf(x) == SourceOf(e) ==> x == e
    ensures LastOf(events, SourceOf(e)) == Some(e)
  {
    LastOfSpec(events, SourceOf(e));
    assert e in events;
    var k :| 0 <= k < |events| && events[k] == e;
  }
}
