/** The pure rules of the catalog screen (src/App.js): the type-label table,
    the enrichment of one fetched record, the merge that appends a page and
    drops repeated ids, the search filter, and the name and sprite URL shown
    on each grid tile. */
module Catalog {
  import opened Wrappers
  import opened Text
  import opened Lists

  /** The number of entries requested per page; a shorter page is the last. */
  const PageSize: nat := 50

  /** One entry of a species record's `names` list. */
  datatype SpeciesName = SpeciesName(name: string, language: string)

  /** One entry of a detail record's `stats` list: `stat.name` and `base_stat`. */
  datatype StatEntry = StatEntry(name: string, baseStat: int)

  /** What the network yields for one reference of a page: the reference's
      `url`, the fields of its detail record, and the `names` of its species
      record. */
  datatype RawRecord = RawRecord(
    url: string,
    id: int,
    name: string,
    typeIds: seq<string>,
    stats: seq<StatEntry>,
    abilities: seq<string>,
    speciesNames: seq<SpeciesName>)

  /** An enriched catalog entry as kept in the accumulated list. The image
      number is None where `parseInt` gives NaN. */
  datatype Pokemon = Pokemon(
    id: int,
    name: string,
    koreanName: string,
    typesInKorean: seq<string>,
    imageNumber: Option<nat>,
    stats: seq<StatEntry>,
    abilities: seq<string>)

  /** Why a page could not be enriched. */
  datatype PageError = NoKoreanName(url: string)

  // ---------------------------------------------------------------------
  // type labels

  /** The fixed table from type ids to Korean labels. */
  const TypeNames: map<string, string> := map[
    "normal" := "노말",
    "fighting" := "격투",
    "flying" := "비행",
    "poison" := "독",
    "ground" := "땅",
    "rock" := "바위",
    "bug" := "벌레",
    "ghost" := "고스트",
    "steel" := "강철",
    "fire" := "불",
    "water" := "물",
    "grass" := "풀",
    "electric" := "전기",
    "psychic" := "에스퍼",
    "ice" := "얼음",
    "dragon" := "드래곤",
    "dark" := "악",
    "fairy" := "페어리"
  ]

  /** `typeNames[type] || type`: the table's label when it is there and
      truthy, otherwise the id itself. Every label in the table is non-empty,
      so a known id always gets its label and an unknown one passes through. */
  function TypeLabel(typeId: string): (shown: string)
    ensures typeId in TypeNames ==> shown == TypeNames[typeId]
    ensures typeId !in TypeNames ==> shown == typeId
  {
    if typeId in TypeNames && TypeNames[typeId] != "" then TypeNames[typeId] else typeId
  }

  /** `types.map(...)` with TypeLabel: one label per id, in the same order. */
  function TranslateTypes(typeIds: seq<string>): (labels: seq<string>)
    ensures |labels| == |typeIds|
    ensures forall i :: 0 <= i < |typeIds| ==> labels[i] == TypeLabel(typeIds[i])
    decreases |typeIds|
  {
    if |typeIds| == 0 then [] else [TypeLabel(typeIds[0])] + TranslateTypes(typeIds[1..])
  }

  // ---------------------------------------------------------------------
  // enrichment of one record

  /** `names.find(n => n.language.name === "ko").name`: the name of the first
      Korean entry, None where `find` gives undefined (and `.name` throws). */
  function KoreanName(names: seq<SpeciesName>): (r: Option<string>)
    ensures r.None? <==> forall i :: 0 <= i < |names| ==> names[i].language != "ko"
    ensures r.Some? ==> exists i :: 0 <= i < |names| && names[i].language == "ko" && r.value == names[i].name
                                    && forall j :: 0 <= j < i ==> names[j].language != "ko"
  {
    var isKorean := (n: SpeciesName) => n.language == "ko";
    FindIndexSpec(names, isKorean);
    match FindIndex(names, isKorean)
    case None => None
    case Some(i) => Some(names[i].name)
  }

  /** `parseInt(url.split("/")[6])`: the seventh `/`-separated segment read
      as a decimal numeral; None (NaN) when there is no such segment or it is
      not a numeral. */
  function ImageNumber(url: string): Option<nat>
  {
    var segments := Split(url, '/');
    if |segments| > 6 then ParseDecimal(segments[6]) else None
  }

  /** A URL made of `/`-free segments whose seventh is the text of n yields n. */
  lemma ImageNumberOfSegments(segments: seq<string>, n: nat)
    requires |segments| > 6 && segments[6] == DecimalText(n)
    requires forall i :: 0 <= i < |segments| ==> '/' !in segments[i]
    ensures ImageNumber(Join(segments, '/')) == Some(n)
  {
    SplitJoin(segments, '/');
    ParseDecimalText(n);
  }

  /** The reference URL the list endpoint gives entry n, written as its
      `/`-separated segments: `https://pokeapi.co/api/v2/pokemon/<n>/`. */
  function ListUrl(n: nat): string
  {
    Join(["https:", "", "pokeapi.co", "api", "v2", "pokemon", DecimalText(n), ""], '/')
  }

  /** The image number of entry n's reference URL is n (for entry 25, the URL
      ending in `/pokemon/25/` yields 25). */
  lemma ImageNumberOfListUrl(n: nat)
    ensures ImageNumber(ListUrl(n)) == Some(n)
  {
    var segments := ["https:", "", "pokeapi.co", "api", "v2", "pokemon", DecimalText(n), ""];
    assert forall i :: 0 <= i < |segments| ==> '/' !in segments[i];
    ImageNumberOfSegments(segments, n);
  }

  /** The per-reference step of the page loader: the detail record's fields,
      the Korean name, the translated type labels and the image number. It
      fails exactly when the species record has no Korean name. */
  function Enrich(raw: RawRecord): Result<Pokemon, PageError>
  {
    match KoreanName(raw.speciesNames)
    case None => Failure(NoKoreanName(raw.url))
    case Some(koreanName) =>
      Success(Pokemon(raw.id, raw.name, koreanName, TranslateTypes(raw.typeIds),
                      ImageNumber(raw.url), raw.stats, raw.abilities))
  }

  /** Enrichment fails exactly when no species name is Korean; otherwise the
      entry keeps the record's id, name, stats and abilities and adds the
      first Korean name, the translated types and the image number. */
  lemma EnrichSpec(raw: RawRecord)
    ensures Enrich(raw).Failure? <==> forall i :: 0 <= i < |raw.speciesNames| ==> raw.speciesNames[i].language != "ko"
    ensures Enrich(raw).Success? ==>
              && Enrich(raw).value.id == raw.id && Enrich(raw).value.name == raw.name
              && Some(Enrich(raw).value.koreanName) == KoreanName(raw.speciesNames)
              && Enrich(raw).value.typesInKorean == TranslateTypes(raw.typeIds)
              && Enrich(raw).value.imageNumber == ImageNumber(raw.url)
              && Enrich(raw).value.stats == raw.stats && Enrich(raw).value.abilities == raw.abilities
  {
  }

  /** `Promise.all` over a page: every record enriched, in order, or the
      whole page fails when any one record fails. */
  function EnrichPage(raws: seq<RawRecord>): (r: Result<seq<Pokemon>, PageError>)
    ensures r.Success? ==> |r.value| == |raws|
  {
    MapAll(Enrich, raws)
  }

  /** A page succeeds exactly when every record enriches, and then its i-th
      entry is the i-th record enriched. */
  lemma EnrichPageAllOrNothing(raws: seq<RawRecord>)
    ensures EnrichPage(raws).Success? <==> forall i :: 0 <= i < |raws| ==> Enrich(raws[i]).Success?
    ensures EnrichPage(raws).Success? ==>
              forall i :: 0 <= i < |raws| ==> Success(EnrichPage(raws).value[i]) == Enrich(raws[i])
  {
    MapAllSpec(Enrich, raws);
  }

  // ---------------------------------------------------------------------
  // merge and deduplication

  /** The ids present in a list. */
  function Ids(s: seq<Pokemon>): set<int>
  {
    set p | p in s :: p.id
  }

  /** No two entries of the list share an id. */
  predicate Distinct(s: seq<Pokemon>)
  {
    forall i, j :: 0 <= i < j < |s| ==> s[i].id != s[j].id
  }

  /** Index i holds the first entry of s with its id. */
  predicate IsFirstOfId(s: seq<Pokemon>, i: int)
    requires 0 <= i < |s|
  {
    forall j :: 0 <= j < i ==> s[j].id != s[i].id
  }

  /** The `findIndex` predicate `q => q.id === id`. */
  function HasId(id: int): Pokemon -> bool
  {
    (q: Pokemon) => q.id == id
  }

  /** `s.filter((p, index, self) => index === self.findIndex(q => q.id === p.id))`
      applied to the first n entries of s. */
  function KeepFirst(s: seq<Pokemon>, n: nat): seq<Pokemon>
    requires n <= |s|
  {
    if n == 0 then []
    else
      var p := s[n - 1];
      KeepFirst(s, n - 1) + (if FindIndex(s, HasId(p.id)) == Some(n - 1) then [p] else [])
  }

  /** The merge step of the page loader: the old list followed by the new
      page, with every entry whose id appeared earlier removed. */
  function Merge(prev: seq<Pokemon>, page: seq<Pokemon>): seq<Pokemon>
  {
    var combined := prev + page;
    KeepFirst(combined, |combined|)
  }

  /** Reference definition of deduplication: scan left to right, keeping an
      entry only when its id has not been seen before. */
  function Dedup(s: seq<Pokemon>): seq<Pokemon>
    decreases |s|
  {
    if |s| == 0 then []
    else
      var init := s[..|s| - 1];
      var last := s[|s| - 1];
      if last.id in Ids(init) then Dedup(init) else Dedup(init) + [last]
  }

  lemma IdsAppend(a: seq<Pokemon>, b: seq<Pokemon>)
    ensures Ids(a + b) == Ids(a) + Ids(b)
  {
    forall x | x in Ids(a + b) ensures x in Ids(a) + Ids(b) {
      var p :| p in a + b && p.id == x;
    }
    forall x | x in Ids(a) + Ids(b) ensures x in Ids(a + b) {
      if x in Ids(a) {
        var p :| p in a && p.id == x;
        assert p in a + b;
      } else {
        var p :| p in b && p.id == x;
        assert p in a + b;
      }
    }
  }

  /** findIndex on the id finds index i exactly when i holds the first entry
      with that id. */
  lemma FindIdIsFirst(s: seq<Pokemon>, i: nat)
    requires i < |s|
    ensures FindIndex(s, HasId(s[i].id)) == Some(i) <==> IsFirstOfId(s, i)
  {
    var p := s[i];
    FindIndexSpec(s, HasId(p.id));
    if IsFirstOfId(s, i) {
      FindIndexIsFirst(s, HasId(p.id), i);
    }
  }

  /** Index i holds the first entry with its id exactly when that id is not
      among the ids before it. */
  lemma FirstOfIdIffNew(s: seq<Pokemon>, i: nat)
    requires i < |s|
    ensures IsFirstOfId(s, i) <==> s[i].id !in Ids(s[..i])
  {
    var init := s[..i];
    if s[i].id in Ids(init) {
      var q :| q in init && q.id == s[i].id;
      var j :| 0 <= j < i && init[j] == q;
      assert s[j].id == s[i].id;
    } else {
      forall j | 0 <= j < i ensures s[j].id != s[i].id {
        assert init[j] in init;
      }
    }
  }

  /** The code keeps index i exactly when its id is new to the entries
      before it. */
  lemma KeptIffNewId(s: seq<Pokemon>, i: nat)
    requires i < |s|
    ensures FindIndex(s, HasId(s[i].id)) == Some(i) <==> s[i].id !in Ids(s[..i])
  {
    FindIdIsFirst(s, i);
    FirstOfIdIffNew(s, i);
  }

  /** One more entry of s: the code keeps it exactly when `findIndex` on its
      id finds its own index. */
  lemma KeepFirstStep(s: seq<Pokemon>, n: nat)
    requires 0 < n <= |s|
    ensures KeepFirst(s, n)
            == KeepFirst(s, n - 1) + (if FindIndex(s, HasId(s[n - 1].id)) == Some(n - 1) then [s[n - 1]] else [])
  {
  }

  /** One more entry of s: the reference scan keeps it exactly when its id
      is new. */
  lemma DedupOfPrefix(s: seq<Pokemon>, n: nat)
    requires 0 < n <= |s|
    ensures Dedup(s[..n]) == Dedup(s[..n - 1]) + (if s[n - 1].id in Ids(s[..n - 1]) then [] else [s[n - 1]])
  {
    assert s[..n][..n - 1] == s[..n - 1];
  }

  /** The code's filter-with-findIndex agrees with the reference scan. */
  lemma {:induction false} KeepFirstIsDedup(s: seq<Pokemon>, n: nat)
    requires n <= |s|
    ensures KeepFirst(s, n) == Dedup(s[..n])
    decreases n
  {
    if n > 0 {
      var p, init := s[n - 1], s[..n - 1];
      var kept := if p.id in Ids(init) then [] else [p];
      calc {
        KeepFirst(s, n);
        { KeepFirstStep(s, n); KeptIffNewId(s, n - 1); }
        KeepFirst(s, n - 1) + kept;
        { KeepFirstIsDedup(s, n - 1); }
        Dedup(init) + kept;
        { DedupOfPrefix(s, n); }
        Dedup(s[..n]);
      }
    }
  }

  /** Merge is the reference deduplication of the concatenation. */
  lemma MergeIsDedup(prev: seq<Pokemon>, page: seq<Pokemon>)
    ensures Merge(prev, page) == Dedup(prev + page)
  {
    var combined := prev + page;
    KeepFirstIsDedup(combined, |combined|);
    assert combined[..|combined|] == combined;
  }

  /** Deduplication leaves distinct ids and loses no id. */
  lemma {:induction false} DedupDistinctIds(s: seq<Pokemon>)
    ensures Distinct(Dedup(s))
    ensures Ids(Dedup(s)) == Ids(s)
    decreases |s|
  {
    if |s| > 0 {
      var init := s[..|s| - 1];
      var last := s[|s| - 1];
      DedupDistinctIds(init);
      assert s == init + [last];
      IdsAppend(init, [last]);
      assert Ids([last]) == {last.id};
      if last.id !in Ids(init) {
        IdsAppend(Dedup(init), [last]);
        forall k | 0 <= k < |Dedup(init)| ensures Dedup(init)[k].id != last.id {
          assert Dedup(init)[k] in Dedup(init);
        }
      }
    }
  }

  /** x occurs in s at an index that holds the first entry with its id. */
  predicate IsFirstOccurrence(s: seq<Pokemon>, x: Pokemon)
  {
    exists i :: 0 <= i < |s| && s[i] == x && IsFirstOfId(s, i)
  }

  /** The k-th entry deduplication keeps is the first entry of its input
      with that id. */
  lemma {:induction false} DedupEntryIsFirst(s: seq<Pokemon>, k: nat)
    requires k < |Dedup(s)|
    ensures IsFirstOccurrence(s, Dedup(s)[k])
    decreases |s|
  {
    var init, last := s[..|s| - 1], s[|s| - 1];
    var d := Dedup(s);
    assert d == if last.id in Ids(init) then Dedup(init) else Dedup(init) + [last];
    if k < |Dedup(init)| {
      DedupEntryIsFirst(init, k);
      var i :| 0 <= i < |init| && init[i] == Dedup(init)[k] && IsFirstOfId(init, i);
      assert s[i] == d[k];
      assert IsFirstOfId(s, i) by {
        forall j | 0 <= j < i ensures s[j].id != s[i].id {
          assert s[j] == init[j];
        }
      }
    } else {
      assert last.id !in Ids(init) && d[k] == last;
      forall j | 0 <= j < |s| - 1 ensures s[j].id != last.id {
        assert init[j] in init;
      }
      assert IsFirstOfId(s, |s| - 1);
    }
  }

  /** Deduplication leaves distinct ids, loses no id, and keeps only entries
      of its input, each of them the first entry with its id. */
  lemma DedupSpec(s: seq<Pokemon>)
    ensures Distinct(Dedup(s))
    ensures Ids(Dedup(s)) == Ids(s)
    ensures forall k :: 0 <= k < |Dedup(s)| ==> IsFirstOccurrence(s, Dedup(s)[k])
  {
    DedupDistinctIds(s);
    forall k | 0 <= k < |Dedup(s)| ensures IsFirstOccurrence(s, Dedup(s)[k]) {
      DedupEntryIsFirst(s, k);
    }
  }

  /** A list whose ids are already distinct is its own deduplication. */
  lemma {:induction false} DedupOfDistinct(s: seq<Pokemon>)
    requires Distinct(s)
    ensures Dedup(s) == s
    decreases |s|
  {
    if |s| > 0 {
      var init := s[..|s| - 1];
      var last := s[|s| - 1];
      DedupOfDistinct(init);
      forall q | q in init ensures q.id != last.id {
        var j :| 0 <= j < |init| && init[j] == q;
        assert s[j] == q;
      }
      assert init + [last] == s;
    }
  }

  /** Appending entries to a distinct list keeps that list as a prefix of the
      deduplication. */
  lemma {:induction false} DedupKeepsDistinctPrefix(a: seq<Pokemon>, b: seq<Pokemon>)
    requires Distinct(a)
    ensures a <= Dedup(a + b)
    decreases |b|
  {
    if |b| == 0 {
      assert a + b == a;
      DedupOfDistinct(a);
    } else {
      var b' := b[..|b| - 1];
      DedupKeepsDistinctPrefix(a, b');
      assert (a + b)[..|a + b| - 1] == a + b';
    }
  }

  /** Appending entries whose ids are all present already changes nothing. */
  lemma {:induction false} DedupAbsorbsKnownIds(a: seq<Pokemon>, b: seq<Pokemon>)
    requires Distinct(a)
    requires Ids(b) <= Ids(a)
    ensures Dedup(a + b) == a
    decreases |b|
  {
    if |b| == 0 {
      assert a + b == a;
      DedupOfDistinct(a);
    } else {
      var b' := b[..|b| - 1];
      var last := b[|b| - 1];
      assert last in b;
      assert Ids(b') <= Ids(b) by {
        forall x | x in Ids(b') ensures x in Ids(b) {
          var p :| p in b' && p.id == x;
          assert p in b;
        }
      }
      DedupAbsorbsKnownIds(a, b');
      assert (a + b)[..|a + b| - 1] == a + b';
      IdsAppend(a, b');
    }
  }

  /** After a merge no two entries share an id, and every id of the old list
      or of the page is present (hence exactly once). */
  lemma MergeUnique(prev: seq<Pokemon>, page: seq<Pokemon>)
    ensures Distinct(Merge(prev, page))
    ensures Ids(Merge(prev, page)) == Ids(prev) + Ids(page)
  {
    MergeIsDedup(prev, page);
    DedupDistinctIds(prev + page);
    IdsAppend(prev, page);
  }

  /** Each merged entry is the first entry with its id in old list + page. */
  lemma MergeKeepsFirstOccurrence(prev: seq<Pokemon>, page: seq<Pokemon>, k: nat)
    requires k < |Merge(prev, page)|
    ensures IsFirstOccurrence(prev + page, Merge(prev, page)[k])
  {
    MergeIsDedup(prev, page);
    DedupEntryIsFirst(prev + page, k);
  }

  /** A distinct old list survives the merge unchanged as a prefix, and every
      entry after it comes from the page with an id the old list lacked. */
  lemma MergeExtendsDistinct(prev: seq<Pokemon>, page: seq<Pokemon>)
    requires Distinct(prev)
    ensures prev <= Merge(prev, page)
    ensures forall k :: |prev| <= k < |Merge(prev, page)| ==>
              Merge(prev, page)[k] in page && Merge(prev, page)[k].id !in Ids(prev)
  {
    var m := Merge(prev, page);
    MergeIsDedup(prev, page);
    DedupKeepsDistinctPrefix(prev, page);
    MergeUnique(prev, page);
    forall k | |prev| <= k < |m| ensures m[k] in page && m[k].id !in Ids(prev) {
      forall q | q in prev ensures q.id != m[k].id {
        var j :| 0 <= j < |prev| && prev[j] == q;
        assert m[j] == prev[j];
      }
      DedupEntryIsFirst(prev + page, k);
      assert m[k] in prev + page;
      assert m[k] !in prev;
    }
  }

  /** The first page merged into the empty list is kept as it is when its
      ids are distinct. */
  lemma MergeIntoEmpty(page: seq<Pokemon>)
    requires Distinct(page)
    ensures Merge([], page) == page
  {
    MergeIsDedup([], page);
    assert [] + page == page;
    DedupOfDistinct(page);
  }

  /** Merging the same page a second time changes nothing. */
  lemma MergeIdempotent(prev: seq<Pokemon>, page: seq<Pokemon>)
    ensures Merge(Merge(prev, page), page) == Merge(prev, page)
  {
    var m := Merge(prev, page);
    MergeUnique(prev, page);
    MergeIsDedup(m, page);
    DedupAbsorbsKnownIds(m, page);
  }

  // ---------------------------------------------------------------------
  // search

  /** The search predicate: the lower-cased term occurs in the lower-cased
      Korean name or in the lower-cased name. */
  predicate Matches(p: Pokemon, term: string)
  {
    Includes(Lower(p.koreanName), Lower(term)) || Includes(Lower(p.name), Lower(term))
  }

  /** The grid's `pokemonList.filter(...)` for the search term. */
  function Search(list: seq<Pokemon>, term: string): (r: seq<Pokemon>)
    ensures |r| <= |list|
    ensures forall p :: p in r <==> p in list && Matches(p, term)
    decreases |list|
  {
    if |list| == 0 then []
    else (if Matches(list[0], term) then [list[0]] else []) + Search(list[1..], term)
  }

  /** Filtering distributes over concatenation: the result keeps the order of
      the list. */
  lemma {:induction false} SearchAppend(a: seq<Pokemon>, b: seq<Pokemon>, term: string)
    ensures Search(a + b, term) == Search(a, term) + Search(b, term)
    decreases |a|
  {
    if |a| > 0 {
      assert (a + b)[1..] == a[1..] + b;
      SearchAppend(a[1..], b, term);
    } else {
      assert a + b == b;
    }
  }

  /** The empty search term keeps every entry. */
  lemma {:induction false} SearchEmptyTerm(list: seq<Pokemon>)
    ensures Search(list, "") == list
    decreases |list|
  {
    if |list| > 0 {
      IncludesEmpty(Lower(list[0].koreanName));
      SearchEmptyTerm(list[1..]);
    }
  }

  /** Terms that lower-case alike select the same entries. */
  lemma {:induction false} SearchCaseInsensitive(list: seq<Pokemon>, t1: string, t2: string)
    requires Lower(t1) == Lower(t2)
    ensures Search(list, t1) == Search(list, t2)
    decreases |list|
  {
    if |list| > 0 {
      SearchCaseInsensitive(list[1..], t1, t2);
    }
  }

  /** Terms that differ only in ASCII letter case select the same entries. */
  lemma SearchIgnoresTermCase(list: seq<Pokemon>, t1: string, t2: string)
    requires SameUpToCase(t1, t2)
    ensures Search(list, t1) == Search(list, t2)
  {
    LowerSameUpToCase(t1, t2);
    SearchCaseInsensitive(list, t1, t2);
  }

  /** Two entries of the first page, for the search examples below. */
  const Bulbasaur: Pokemon := Pokemon(1, "bulbasaur", "이상해씨", [], Some(1), [], [])
  const Ivysaur: Pokemon := Pokemon(2, "ivysaur", "이상해풀", [], Some(2), [], [])

  lemma KoreanTermMatches()
    ensures Matches(Bulbasaur, "이상해씨") && !Matches(Ivysaur, "이상해씨")
  {
    var t := "이상해씨";
    assert Lower(t) == t by { LowerPointwise(t); }
    assert Lower("이상해풀") == "이상해풀" by { LowerPointwise("이상해풀"); }
    assert Lower("ivysaur") == "ivysaur" by { LowerPointwise("ivysaur"); }
    SameLengthIncludes(t, t);
    SameLengthIncludes("이상해풀", t);
    MissingFirstCharExcludes("ivysaur", t);
  }

  lemma LatinTermMatches()
    ensures Matches(Bulbasaur, "SAUR") && Matches(Ivysaur, "SAUR")
  {
    assert Lower("SAUR") == "saur" by { LowerPointwise("SAUR"); }
    assert Lower("bulbasaur") == "bulbasaur" by { LowerPointwise("bulbasaur"); }
    assert Lower("ivysaur") == "ivysaur" by { LowerPointwise("ivysaur"); }
    assert OccursAt("bulbasaur", "saur", 5);
    OccurrenceIncluded("bulbasaur", "saur", 5);
    assert OccursAt("ivysaur", "saur", 3);
    OccurrenceIncluded("ivysaur", "saur", 3);
  }

  /** Searching the two entries for the full Korean name of the first finds
      only the first; searching for "SAUR" in any case finds both. */
  lemma SearchExample()
    ensures Search([Bulbasaur, Ivysaur], "이상해씨") == [Bulbasaur]
    ensures Search([Bulbasaur, Ivysaur], "SAUR") == [Bulbasaur, Ivysaur]
  {
    KoreanTermMatches();
    LatinTermMatches();
    assert [Bulbasaur, Ivysaur][1..] == [Ivysaur];
  }

  // ---------------------------------------------------------------------
  // tile display

  /** The image host path of the official artwork. */
  const ArtworkBase: string := "https://raw.githubusercontent.com/PokeAPI/sprites/master/sprites/pokemon/other/official-artwork/"

  /** `koreanName ? koreanName : name`: the Korean name unless it is empty. */
  function DisplayName(p: Pokemon): (r: string)
    ensures r == p.koreanName || r == p.name
    ensures p.koreanName != "" ==> r == p.koreanName
    ensures r == "" <==> p.koreanName == "" && p.name == ""
  {
    if p.koreanName != "" then p.koreanName else p.name
  }

  /** How the template literal prints the image number; NaN for None. */
  function NumberText(n: Option<nat>): string
  {
    match n
    case Some(v) => DecimalText(v)
    case None => "NaN"
  }

  /** The folder the shiny toggle adds: `shiny/` in shiny mode, nothing
      otherwise. */
  function ModeFolder(shiny: bool): string
  {
    if shiny then "shiny/" else ""
  }

  /** The tile's image URL: the artwork base, the mode folder, the image
      number and `.png`. */
  function SpriteUrl(imageNumber: Option<nat>, shiny: bool): (url: string)
    ensures ArtworkBase <= url
  {
    ArtworkBase + (ModeFolder(shiny) + NumberText(imageNumber)) + ".png"
  }

  /** The middle of a three-part concatenation is recovered by slicing. */
  lemma MiddleOfConcat(head: string, middle: string, tail: string)
    ensures (head + middle + tail)[|head|..|head| + |middle|] == middle
  {
  }

  /** Equal concatenations with the same head and tail have equal middles. */
  lemma MiddleCancels(head: string, m1: string, m2: string, tail: string)
    requires head + m1 + tail == head + m2 + tail
    ensures m1 == m2
  {
    assert |m1| == |m2|;
    MiddleOfConcat(head, m1, tail);
    MiddleOfConcat(head, m2, tail);
  }

  /** The mode folder and a non-empty numeral are recovered from their
      concatenation: a numeral never starts with the `s` of `shiny/`. */
  lemma ModeAndDigitsInjective(s1: bool, d1: string, s2: bool, d2: string)
    requires |d1| > 0 && AllDigits(d1) && |d2| > 0 && AllDigits(d2)
    requires ModeFolder(s1) + d1 == ModeFolder(s2) + d2
    ensures s1 == s2 && d1 == d2
  {
    var m1, m2 := ModeFolder(s1) + d1, ModeFolder(s2) + d2;
    assert m1[0] == m2[0];
    assert d1 == m1[|ModeFolder(s1)|..] && d2 == m2[|ModeFolder(s2)|..];
  }

  /** For any base path, the mode and the image number are recovered from
      `base + (folder + number) + ".png"`. */
  lemma UrlShapeInjective(base: string, n1: nat, s1: bool, n2: nat, s2: bool)
    requires base + (ModeFolder(s1) + DecimalText(n1)) + ".png"
          == base + (ModeFolder(s2) + DecimalText(n2)) + ".png"
    ensures n1 == n2 && s1 == s2
  {
    MiddleCancels(base, ModeFolder(s1) + DecimalText(n1), ModeFolder(s2) + DecimalText(n2), ".png");
    ModeAndDigitsInjective(s1, DecimalText(n1), s2, DecimalText(n2));
    DecimalTextInjective(n1, n2);
  }

  /** Different image numbers or modes never share a tile URL. */
  lemma SpriteUrlInjective(n1: nat, s1: bool, n2: nat, s2: bool)
    requires SpriteUrl(Some(n1), s1) == SpriteUrl(Some(n2), s2)
    ensures n1 == n2 && s1 == s2
  {
    UrlShapeInjective(ArtworkBase, n1, s1, n2, s2);
  }
}
