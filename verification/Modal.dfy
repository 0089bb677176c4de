/** The detail overlay (src/PokemonModal.js): stat lookup by name, the total
    of the six base stats, the width of each stat bar, and the header name and
    image URL. */
module Modal {
  import opened Wrappers
  import opened Text
  import opened Lists
  import opened Catalog

  /** The six stats the overlay shows and adds up, in display order. */
  const StatNames: seq<string> := ["hp", "attack", "defense", "special-attack", "special-defense", "speed"]

  /** The value a full stat bar stands for. */
  const MaxStatValue: int := 255

  /** `find` found no stat of this name, so reading `.base_stat` throws. */
  datatype StatError = MissingStat(statName: string)

  /** Some entry of the list carries this stat name. */
  predicate HasStat(stats: seq<StatEntry>, statName: string)
  {
    exists i :: 0 <= i < |stats| && stats[i].name == statName
  }

  /** The `find` predicate `stat => stat.stat.name === statName`. */
  function IsStatNamed(statName: string): StatEntry -> bool
  {
    (s: StatEntry) => s.name == statName
  }

  /** `stats.find(stat => stat.stat.name === statName).base_stat`: the value
      of the first entry with that name, an error when there is none. */
  function GetBaseStatValue(stats: seq<StatEntry>, statName: string): (r: Result<int, StatError>)
    ensures r.Success? <==> HasStat(stats, statName)
    ensures r.Failure? ==> r.error == MissingStat(statName)
  {
    FindIndexSpec(stats, IsStatNamed(statName));
    match FindIndex(stats, IsStatNamed(statName))
    case None => Failure(MissingStat(statName))
    case Some(i) => Success(stats[i].baseStat)
  }

  /** A found value is the `base_stat` of the first entry with that name. */
  lemma GetBaseStatValueIsFirstMatch(stats: seq<StatEntry>, statName: string)
    requires HasStat(stats, statName)
    ensures exists i :: && 0 <= i < |stats| && stats[i].name == statName
                        && GetBaseStatValue(stats, statName) == Success(stats[i].baseStat)
                        && forall j :: 0 <= j < i ==> stats[j].name != statName
  {
    FindIndexSpec(stats, IsStatNamed(statName));
    var i := FindIndex(stats, IsStatNamed(statName)).value;
    assert stats[i].name == statName;
  }

  /** Looking a stat name up in the entry list, as a function of the name. */
  function StatLookup(stats: seq<StatEntry>): string -> Result<int, StatError>
  {
    (statName: string) => GetBaseStatValue(stats, statName)
  }

  /** The running total over names, each name's value given by `lookup`, in
      order; the first failing lookup is the error. */
  function SumOver(lookup: string -> Result<int, StatError>, names: seq<string>): Result<int, StatError>
    decreases |names|
  {
    if |names| == 0 then Success(0)
    else
      match SumOver(lookup, names[..|names| - 1])
      case Failure(e) => Failure(e)
      case Success(partial) =>
        match lookup(names[|names| - 1])
        case Failure(e) => Failure(e)
        case Success(v) => Success(partial + v)
  }

  /** The running total over the given names, each looked up in the entry
      list; the first missing name is the error. */
  function SumStats(stats: seq<StatEntry>, names: seq<string>): Result<int, StatError>
  {
    SumOver(StatLookup(stats), names)
  }

  /** A running total is defined exactly when every lookup succeeds. */
  lemma {:induction false} SumOverDefinedIff(lookup: string -> Result<int, StatError>, names: seq<string>)
    ensures SumOver(lookup, names).Success? <==> forall k :: 0 <= k < |names| ==> lookup(names[k]).Success?
    decreases |names|
  {
    if |names| > 0 {
      var init := names[..|names| - 1];
      SumOverDefinedIff(lookup, init);
      assert forall k :: 0 <= k < |init| ==> init[k] == names[k];
    }
  }

  /** Once a prefix of the names fails, the whole total fails the same way. */
  lemma {:induction false} SumOverFailureSticks(lookup: string -> Result<int, StatError>, names: seq<string>, k: nat)
    requires k <= |names|
    requires SumOver(lookup, names[..k]).Failure?
    ensures SumOver(lookup, names) == SumOver(lookup, names[..k])
    decreases |names| - k
  {
    if k < |names| {
      var init := names[..|names| - 1];
      assert init[..k] == names[..k];
      SumOverFailureSticks(lookup, init, k);
    } else {
      assert names[..k] == names;
    }
  }

  /** Extending the names by one adds that name's value, or fails on it. */
  lemma SumOverStep(lookup: string -> Result<int, StatError>, names: seq<string>, k: nat)
    requires k < |names| && SumOver(lookup, names[..k]).Success?
    ensures lookup(names[k]).Failure? ==> SumOver(lookup, names[..k + 1]) == Failure(lookup(names[k]).error)
    ensures lookup(names[k]).Success? ==>
              SumOver(lookup, names[..k + 1]) == Success(SumOver(lookup, names[..k]).value + lookup(names[k]).value)
  {
    assert names[..k + 1][..k] == names[..k];
  }

  /** Appending one name whose lookup succeeds adds its value. */
  lemma SumOverSnoc(lookup: string -> Result<int, StatError>, names: seq<string>, x: string)
    requires SumOver(lookup, names).Success? && lookup(x).Success?
    ensures SumOver(lookup, names + [x]) == Success(SumOver(lookup, names).value + lookup(x).value)
  {
    assert (names + [x])[..|names|] == names;
  }

  /** Running totals over two name lists add up over their concatenation. */
  lemma {:induction false} SumOverAppend(lookup: string -> Result<int, StatError>, x: seq<string>, y: seq<string>)
    requires SumOver(lookup, x).Success? && SumOver(lookup, y).Success?
    ensures SumOver(lookup, x + y) == Success(SumOver(lookup, x).value + SumOver(lookup, y).value)
    decreases |y|
  {
    if |y| == 0 {
      assert x + y == x;
    } else {
      var init := y[..|y| - 1];
      assert (x + y)[..|x + y| - 1] == x + init;
      assert (x + y)[|x + y| - 1] == y[|y| - 1];
      SumOverAppend(lookup, x, init);
    }
  }

  /** Two lookups that agree on every name give the same running total. */
  lemma {:induction false} SumOverAgree(l1: string -> Result<int, StatError>, l2: string -> Result<int, StatError>, names: seq<string>)
    requires forall k :: 0 <= k < |names| ==> l1(names[k]) == l2(names[k])
    ensures SumOver(l1, names) == SumOver(l2, names)
    decreases |names|
  {
    if |names| > 0 {
      var init := names[..|names| - 1];
      assert forall k :: 0 <= k < |init| ==> init[k] == names[k];
      SumOverAgree(l1, l2, init);
    }
  }

  /** Over three names whose lookups succeed, the total is their three
      values added up. */
  lemma SumOfThree(lookup: string -> Result<int, StatError>, names: seq<string>, a: string, b: string, c: string)
    requires names == [a] + [b] + [c]
    requires lookup(a).Success? && lookup(b).Success? && lookup(c).Success?
    ensures SumOver(lookup, names) == Success(lookup(a).value + lookup(b).value + lookup(c).value)
  {
    var one, two := [a], [a] + [b];
    assert SumOver(lookup, one) == Success(lookup(a).value) by {
      assert one[..0] == [];
    }
    SumOverSnoc(lookup, one, b);
    SumOverSnoc(lookup, two, c);
  }

  /** Over six names whose lookups succeed, the total is the six values
      added up. */
  lemma SumOfSix(lookup: string -> Result<int, StatError>, names: seq<string>,
                 a: string, b: string, c: string, d: string, e: string, f: string)
    requires names == ([a] + [b] + [c]) + ([d] + [e] + [f])
    requires lookup(a).Success? && lookup(b).Success? && lookup(c).Success?
    requires lookup(d).Success? && lookup(e).Success? && lookup(f).Success?
    ensures SumOver(lookup, names)
            == Success(lookup(a).value + lookup(b).value + lookup(c).value
                       + lookup(d).value + lookup(e).value + lookup(f).value)
  {
    var front, back := [a] + [b] + [c], [d] + [e] + [f];
    SumOfThree(lookup, front, a, b, c);
    SumOfThree(lookup, back, d, e, f);
    SumOverAppend(lookup, front, back);
  }

  /** The sum is defined exactly when every name has an entry. */
  lemma SumStatsDefinedIff(stats: seq<StatEntry>, names: seq<string>)
    ensures SumStats(stats, names).Success? <==> forall k :: 0 <= k < |names| ==> HasStat(stats, names[k])
  {
    SumOverDefinedIff(StatLookup(stats), names);
    forall k | 0 <= k < |names| ensures StatLookup(stats)(names[k]).Success? <==> HasStat(stats, names[k]) {
    }
  }

  /** The accumulator loop of `calculateTotalStats` over a list of names:
      add each name's value in order; the first missing one aborts with an
      error. */
  method AddUpStats(stats: seq<StatEntry>, names: seq<string>) returns (total: Result<int, StatError>)
    ensures total == SumStats(stats, names)
  {
    var sum := 0;
    for k := 0 to |names|
      invariant SumStats(stats, names[..k]) == Success(sum)
    {
      var v := GetBaseStatValue(stats, names[k]);
      assert StatLookup(stats)(names[k]) == v;
      SumOverStep(StatLookup(stats), names, k);
      if v.Failure? {
        SumOverFailureSticks(StatLookup(stats), names, k + 1);
        return Failure(v.error);
      }
      sum := sum + v.value;
    }
    assert names[..|names|] == names;
    return Success(sum);
  }

  /** `calculateTotalStats`: the loop over the six stat names. */
  method CalculateTotalStats(stats: seq<StatEntry>) returns (total: Result<int, StatError>)
    ensures total == SumStats(stats, StatNames)
  {
    total := AddUpStats(stats, StatNames);
  }

  /** The total exists exactly when all six stats are present; a missing
      one is an error, never a default. */
  lemma TotalStatsDefinedIff(stats: seq<StatEntry>)
    ensures SumStats(stats, StatNames).Success? <==>
              HasStat(stats, "hp") && HasStat(stats, "attack") && HasStat(stats, "defense")
              && HasStat(stats, "special-attack") && HasStat(stats, "special-defense") && HasStat(stats, "speed")
  {
    SumStatsDefinedIff(stats, StatNames);
    assert StatNames[0] == "hp" && StatNames[1] == "attack" && StatNames[2] == "defense";
    assert StatNames[3] == "special-attack" && StatNames[4] == "special-defense" && StatNames[5] == "speed";
  }

  /** When all six stats are present, the total is the sum of the
      first-match values of exactly those six. */
  lemma TotalStatsIsSixSum(stats: seq<StatEntry>)
    requires HasStat(stats, "hp") && HasStat(stats, "attack") && HasStat(stats, "defense")
    requires HasStat(stats, "special-attack") && HasStat(stats, "special-defense") && HasStat(stats, "speed")
    ensures SumStats(stats, StatNames)
            == Success(GetBaseStatValue(stats, "hp").value + GetBaseStatValue(stats, "attack").value
                       + GetBaseStatValue(stats, "defense").value + GetBaseStatValue(stats, "special-attack").value
                       + GetBaseStatValue(stats, "special-defense").value + GetBaseStatValue(stats, "speed").value)
  {
    SumOfSix(StatLookup(stats), StatNames, "hp", "attack", "defense", "special-attack", "special-defense", "speed");
  }

  /** The stat values 45, 49, 49, 65, 65, 45 total 318. */
  lemma TotalStatsExample()
    ensures SumStats([StatEntry("hp", 45), StatEntry("attack", 49), StatEntry("defense", 49),
                      StatEntry("special-attack", 65), StatEntry("special-defense", 65),
                      StatEntry("speed", 45)], StatNames) == Success(318)
  {
    var stats := [StatEntry("hp", 45), StatEntry("attack", 49), StatEntry("defense", 49),
                  StatEntry("special-attack", 65), StatEntry("special-defense", 65),
                  StatEntry("speed", 45)];
    assert stats[0].name == "hp" && stats[1].name == "attack" && stats[2].name == "defense";
    assert stats[3].name == "special-attack" && stats[4].name == "special-defense" && stats[5].name == "speed";
    forall k | 0 <= k < 6 ensures GetBaseStatValue(stats, stats[k].name) == Success(stats[k].baseStat) {
      FindIndexIsFirst(stats, IsStatNamed(stats[k].name), k);
    }
    TotalStatsDefinedIff(stats);
    TotalStatsIsSixSum(stats);
  }

  /** An entry with another name, inserted anywhere, does not change a lookup. */
  lemma GetIgnoresOtherEntry(stats: seq<StatEntry>, i: nat, e: StatEntry, statName: string)
    requires i <= |stats| && e.name != statName
    ensures GetBaseStatValue(stats[..i] + [e] + stats[i..], statName) == GetBaseStatValue(stats, statName)
  {
    var t := stats[..i] + [e] + stats[i..];
    var p := IsStatNamed(statName);
    FindIndexSpec(stats, p);
    match FindIndex(stats, p)
    case None =>
      FindIndexNoneSkipsInserted(stats, i, e, p);
    case Some(k) =>
      FindIndexSomeSkipsInserted(stats, i, e, p, k);
      assert t[if k < i then k else k + 1] == stats[k];
  }

  /** Entries appended after a name's first match do not change its lookup,
      so a later duplicate of a name is never read. */
  lemma GetIgnoresLaterEntries(stats: seq<StatEntry>, more: seq<StatEntry>, statName: string)
    requires HasStat(stats, statName)
    ensures GetBaseStatValue(stats + more, statName) == GetBaseStatValue(stats, statName)
  {
    var p := IsStatNamed(statName);
    FindIndexSpec(stats, p);
    var k := FindIndex(stats, p).value;
    assert (stats + more)[k] == stats[k];
    FindIndexIsFirst(stats + more, p, k);
  }

  /** Inserting an entry whose name is not summed leaves the sum unchanged. */
  lemma SumIgnoresOtherEntry(stats: seq<StatEntry>, i: nat, e: StatEntry, names: seq<string>)
    requires i <= |stats|
    requires forall k :: 0 <= k < |names| ==> names[k] != e.name
    ensures SumStats(stats[..i] + [e] + stats[i..], names) == SumStats(stats, names)
  {
    var t := stats[..i] + [e] + stats[i..];
    forall k | 0 <= k < |names| ensures StatLookup(t)(names[k]) == StatLookup(stats)(names[k]) {
      GetIgnoresOtherEntry(stats, i, e, names[k]);
    }
    SumOverAgree(StatLookup(t), StatLookup(stats), names);
  }

  /** Entries appended after all summed names are present leave the sum
      unchanged. */
  lemma SumIgnoresLaterEntries(stats: seq<StatEntry>, more: seq<StatEntry>, names: seq<string>)
    requires SumStats(stats, names).Success?
    ensures SumStats(stats + more, names) == SumStats(stats, names)
  {
    SumStatsDefinedIff(stats, names);
    forall k | 0 <= k < |names| ensures StatLookup(stats + more)(names[k]) == StatLookup(stats)(names[k]) {
      GetIgnoresLaterEntries(stats, more, names[k]);
    }
    SumOverAgree(StatLookup(stats + more), StatLookup(stats), names);
  }

  /** The bar width `value / 255 * 100`, in exact arithmetic: within [0, 100]
      for values up to 255, above 100 (not clamped) beyond. */
  function Percentage(value: int): (pct: real)
    ensures pct * (MaxStatValue as real) == (value as real) * 100.0
    ensures 0 <= value <= MaxStatValue ==> 0.0 <= pct <= 100.0
    ensures value > MaxStatValue ==> pct > 100.0
  {
    (value as real / MaxStatValue as real) * 100.0
  }

  /** A stat of 45 fills 300/17 (about 17.647) percent of its bar. */
  lemma PercentageExample()
    ensures Percentage(45) == 300.0 / 17.0
  {
  }

  /** `renderStatBar`'s width for a named stat; an error when it is missing. */
  function StatBarPercentage(stats: seq<StatEntry>, statName: string): (r: Result<real, StatError>)
    ensures r.Success? <==> HasStat(stats, statName)
    ensures r.Success? ==> r.value * (MaxStatValue as real) == (GetBaseStatValue(stats, statName).value as real) * 100.0
  {
    match GetBaseStatValue(stats, statName)
    case Failure(e) => Failure(e)
    case Success(v) => Success(Percentage(v))
  }

  /** The overlay's image URL: the artwork base, the entry's id and `.png`;
      for a non-negative id it is the grid's normal-mode URL for that number. */
  function ModalImageUrl(p: Pokemon): (url: string)
    ensures p.id >= 0 ==> url == SpriteUrl(Some(p.id), false)
  {
    ArtworkBase + IntText(p.id) + ".png"
  }

  /** For an entry whose image number equals its id, the overlay shows the
      same image as the grid tile in normal mode. */
  lemma ModalImageMatchesTile(p: Pokemon)
    requires p.imageNumber == Some(p.id)
    ensures ModalImageUrl(p) == SpriteUrl(p.imageNumber, false)
  {
  }
}
