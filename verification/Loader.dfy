/** The state the catalog screen keeps across page fetches (src/App.js):
    the accumulated list, the loading flag, the offset and the "more pages"
    flag, with the page fetch and the scroll-sentinel trigger that update
    them. The API is an input of the fetch: a function from the requested
    offset to what the request for the page at that offset produced. */
module Loader {
  import opened Wrappers
  import opened Catalog

  /** What the request for one page produced: the page's references, each
      with its detail and species records resolved, or a failed request. */
  datatype PageResponse = Fetched(results: seq<RawRecord>) | RequestFailed

  /** The all-or-nothing outcome of a page: its enriched entries, or None when
      the request failed or some record lacks a Korean name. */
  function PageEntries(response: PageResponse): (r: Option<seq<Pokemon>>)
    ensures r.Some? <==> response.Fetched? && forall i :: 0 <= i < |response.results| ==> Enrich(response.results[i]).Success?
    ensures r.Some? ==> |r.value| == |response.results|
    ensures r.Some? ==> forall i :: 0 <= i < |response.results| ==> Success(r.value[i]) == Enrich(response.results[i])
  {
    match response
    case RequestFailed => None
    case Fetched(results) =>
      EnrichPageAllOrNothing(results);
      match EnrichPage(results)
      case Failure(_) => None
      case Success(entries) => Some(entries)
  }

  class CatalogState {
    var list: seq<Pokemon>
    var loading: bool
    var offset: nat
    var hasMore: bool

    /** The ids in the list are distinct, and the offset never passes the
        number of loaded entries. */
    ghost predicate Valid()
      reads this
    {
      Distinct(list) && offset <= |list|
    }

    /** The initial state: nothing loaded, offset 0, more pages expected. */
    constructor ()
      ensures Valid()
      ensures list == [] && !loading && offset == 0 && hasMore
    {
      list := [];
      loading := false;
      offset := 0;
      hasMore := true;
    }

    /** Whether the scroll observer is installed: only while not loading and
        while more pages remain. */
    predicate ObserverInstalled()
      reads this
    {
      !loading && hasMore
    }

    /** One page fetch: the page at the current offset is requested; on
        success it is merged into the list and a short page clears `hasMore`;
        on failure list and flag stay as they were. Either way loading ends
        false and the offset becomes the length the list had when the fetch
        began. */
    method FetchPokemon(catalogue: nat -> PageResponse)
      requires Valid()
      modifies this
      ensures Valid()
      ensures !loading
      ensures offset == |old(list)|
      ensures PageEntries(catalogue(old(offset))).Some? ==>
                && list == Merge(old(list), PageEntries(catalogue(old(offset))).value)
                && hasMore == (old(hasMore) && |catalogue(old(offset)).results| >= PageSize)
      ensures PageEntries(catalogue(old(offset))).None? ==> list == old(list) && hasMore == old(hasMore)
      ensures old(list) <= list
      ensures !old(hasMore) ==> !hasMore
    {
      loading := true;
      var captured := list;
      var response := catalogue(offset);
      match response {
        case RequestFailed =>
        case Fetched(results) =>
          match EnrichPage(results) {
            case Failure(_) =>
            case Success(entries) =>
              MergeUnique(list, entries);
              MergeExtendsDistinct(list, entries);
              list := Merge(list, entries);
              if |results| < PageSize {
                hasMore := false;
              }
          }
      }
      loading := false;
      offset := |captured|;
    }

    /** The sentinel became visible: the installed observer fetches the page
        at the current offset when more pages remain, and does nothing
        otherwise. */
    method OnSentinelVisible(catalogue: nat -> PageResponse) returns (fetched: bool)
      requires Valid()
      modifies this
      ensures Valid()
      ensures fetched == old(ObserverInstalled())
      ensures !fetched ==> list == old(list) && offset == old(offset) && hasMore == old(hasMore) && loading == old(loading)
      ensures fetched ==> !loading && offset == |old(list)|
      ensures fetched && PageEntries(catalogue(old(offset))).Some? ==>
                && list == Merge(old(list), PageEntries(catalogue(old(offset))).value)
                && hasMore == (|catalogue(old(offset)).results| >= PageSize)
      ensures fetched && PageEntries(catalogue(old(offset))).None? ==> list == old(list) && hasMore == old(hasMore)
    {
      if ObserverInstalled() {
        FetchPokemon(catalogue);
        fetched := true;
      } else {
        fetched := false;
      }
    }
  }

  /** The program's run over an 80-entry catalogue, served as a full page
      at offset 0 and a 30-record page at offset 50. The start-up fetch loads
      the first page but leaves the offset at 0 (the list was empty when it
      began), so the first sentinel event requests offset 0 again: the
      repeated page is absorbed by the merge and only then does the offset
      reach 50. The next event loads the short page and clears `hasMore`,
      after which an event fetches nothing. Every full page is requested
      twice; the short page that clears `hasMore` is requested once. */
  method EightyEntryRun(catalogue: nat -> PageResponse, first: seq<RawRecord>, second: seq<RawRecord>)
    returns (requested: seq<nat>, offsets: seq<nat>, hasMores: seq<bool>, lists: seq<seq<Pokemon>>, lastFetched: bool)
    requires |first| == PageSize && |second| == 30
    requires catalogue(0) == Fetched(first) && catalogue(PageSize) == Fetched(second)
    requires EnrichPage(first).Success? && EnrichPage(second).Success?
    requires Distinct(EnrichPage(first).value)
    ensures requested == [0, 0, PageSize]
    ensures offsets == [0, PageSize, PageSize]
    ensures hasMores == [true, true, false]
    ensures lists == [EnrichPage(first).value, EnrichPage(first).value,
                      Merge(EnrichPage(first).value, EnrichPage(second).value)]
    ensures !lastFetched
  {
    var firstEntries, secondEntries := EnrichPage(first).value, EnrichPage(second).value;
    assert PageEntries(Fetched(first)) == Some(firstEntries);
    assert PageEntries(Fetched(second)) == Some(secondEntries);
    MergeIntoEmpty(firstEntries);
    MergeIdempotent([], firstEntries);
    var state := new CatalogState();

    // start-up fetch
    var request0 := state.offset;
    state.FetchPokemon(catalogue);
    assert state.list == firstEntries && state.offset == 0 && state.hasMore;
    var offset0, hasMore0, list0 := state.offset, state.hasMore, state.list;

    // first sentinel event: the same offset again
    var request1 := state.offset;
    var fetched := state.OnSentinelVisible(catalogue);
    assert state.list == firstEntries && state.offset == PageSize && state.hasMore;
    var offset1, hasMore1, list1 := state.offset, state.hasMore, state.list;

    // second sentinel event: the short page
    var request2 := state.offset;
    fetched := state.OnSentinelVisible(catalogue);
    assert state.list == Merge(firstEntries, secondEntries) && state.offset == PageSize && !state.hasMore;
    var offset2, hasMore2, list2 := state.offset, state.hasMore, state.list;

    lastFetched := state.OnSentinelVisible(catalogue);
    requested, offsets, hasMores := [request0, request1, request2], [offset0, offset1, offset2], [hasMore0, hasMore1, hasMore2];
    lists := [list0, list1, list2];
  }
}
