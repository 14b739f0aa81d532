/** osm.py: the stop tag table, the mapping from an element's tags to
    transport modes and back to Overpass tag filters, and the links to
    openstreetmap.org. */
module OsmTags {

  import opened Outcomes
  import opened Strs

  /** One tag set, a dictionary from keys to values in insertion order. A
      `None` value stands for "this key must be absent". */
  type TagSet = seq<(string, Option<string>)>

  /** A dictionary from mode names to their alternative tag sets. */
  type ModeTable = seq<(string, seq<TagSet>)>

  function T(k: string, v: string): (string, Option<string>)
  {
    (k, Some(v))
  }

  /** `stoptags`: the tag sets that mark a stop of each mode. */
  const StopTags: ModeTable := [
    ("train", [
      [T("railway", "station")],
      [T("railway", "halt")],
      [T("railway", "platform")],
      [T("railway", "platform_edge")]]),
    ("light_rail", [
      [T("railway", "station"), T("station", "light_rail")],
      [T("railway", "halt"), T("light_rail", "yes")],
      [T("railway", "platform"), T("light_rail", "yes")],
      [T("railway", "platform_edge"), T("light_rail", "yes")]]),
    ("subway", [
      [T("railway", "station"), T("station", "subway")],
      [T("railway", "halt"), T("subway", "yes")],
      [T("railway", "platform"), T("subway", "yes")],
      [T("railway", "platform_edge"), T("subway", "yes")]]),
    ("monorail", [
      [T("railway", "station"), T("station", "monorail")],
      [T("railway", "halt"), T("monorail", "yes")],
      [T("railway", "platform"), T("monorail", "yes")],
      [T("railway", "platform_edge"), T("monorail", "yes")]]),
    ("tram", [
      [T("railway", "tram_stop")]]),
    ("bus", [
      [T("amenity", "bus_station")],
      [T("highway", "bus_stop")]]),
    ("trolleybus", [
      [T("amenity", "bus_station"), T("trolleybus", "yes")],
      [T("highway", "bus_stop"), T("trolleybus", "yes")]]),
    ("ferry", [
      [T("amenity", "ferry_terminal")]]),
    ("aerialway", [
      [T("aerialway", "station")]])
  ]

  /** `stationtags`: tag sets of station areas; a train station has no
      `station` tag. */
  const StationTags: ModeTable := [
    ("bus", [[T("amenity", "bus_station")]]),
    ("train", [[T("railway", "station"), ("station", None)]]),
    ("subway", [[T("railway", "station"), T("station", "subway")]]),
    ("light_rail", [[T("railway", "station"), T("station", "light_rail")]])
  ]

  // ------------------------------------------------------------ stoptags2mode

  /** The element has tag `k` with value `v`. A string never equals `None`,
      so a `None` entry never holds. */
  predicate TagHolds(otags: map<string, string>, kv: (string, Option<string>))
  {
    kv.0 in otags && Some(otags[kv.0]) == kv.1
  }

  /** Every tag of `mtags` holds on the element. */
  predicate SubMapping(mtags: TagSet, otags: map<string, string>)
  {
    forall t :: 0 <= t < |mtags| ==> TagHolds(otags, mtags[t])
  }

  /** Some tag set of the mode holds on the element. */
  predicate ModeMatches(otags: map<string, string>, mtaglist: seq<TagSet>)
  {
    exists j :: 0 <= j < |mtaglist| && SubMapping(mtaglist[j], otags)
  }

  /** The positions in `table` of the modes that match, in table order. */
  function MatchedIndices(otags: map<string, string>, table: ModeTable): (r: seq<nat>)
    ensures forall k :: 0 <= k < |r| ==> r[k] < |table|
  {
    if |table| == 0 then []
    else
      var n := |table| - 1;
      if ModeMatches(otags, table[n].1) then MatchedIndices(otags, table[..n]) + [n]
      else MatchedIndices(otags, table[..n])
  }

  /** The mode names that match, in table order. */
  function MatchedModes(otags: map<string, string>, table: ModeTable): (r: seq<string>)
  {
    var idx := MatchedIndices(otags, table);
    seq(|idx|, k requires 0 <= k < |idx| => table[idx[k]].0)
  }

  /** `l.remove(x)`: the first occurrence of `x` taken out. */
  function Remove(l: seq<string>, x: string): (r: seq<string>)
    requires x in l
    ensures |r| == |l| - 1
  {
    if l[0] == x then l[1..] else [l[0]] + Remove(l[1..], x)
  }

  /** What stoptags2mode returns for a mode table: the matching modes, less
      "train" when "subway" or "monorail" matched as well. */
  function StopModes(otags: map<string, string>, table: ModeTable): seq<string>
  {
    var outl := MatchedModes(otags, table);
    if "train" in outl && ("subway" in outl || "monorail" in outl) then Remove(outl, "train") else outl
  }

  /** osm.stoptags2mode, over the mode table `table` (`StopTags` in the
      source). */
  method StopTags2Mode(otags: map<string, string>, table: ModeTable) returns (outl: seq<string>)
    ensures outl == StopModes(otags, table)
  {
    outl := [];
    for i := 0 to |table|
      invariant outl == MatchedModes(otags, table[..i])
    {
      var (mode, mtaglist) := table[i];
      var matched := false;
      for j := 0 to |mtaglist|
        invariant !matched
        invariant forall j' :: 0 <= j' < j ==> !SubMapping(mtaglist[j'], otags)
      {
        var mtags := mtaglist[j];
        var soFarOk := true;
        for t := 0 to |mtags|
          invariant soFarOk
          invariant forall t' :: 0 <= t' < t ==> TagHolds(otags, mtags[t'])
        {
          var (k, v) := mtags[t];
          if k !in otags || Some(otags[k]) != v {
            soFarOk := false;
            break;
          }
        }
        if soFarOk {
          matched := true;
          break;
        }
      }
      assert table[..i + 1][..i] == table[..i];
      if matched {
        outl := outl + [mode];
      }
    }
    assert table[..|table|] == table;
    if "train" in outl && ("subway" in outl || "monorail" in outl) {
      outl := Remove(outl, "train");
    }
  }

  /** The matching modes are exactly the table's modes with a tag set that
      holds, each listed at its table position. */
  lemma {:induction false} MatchedIndicesSpec(otags: map<string, string>, table: ModeTable)
    ensures var r := MatchedIndices(otags, table);
      (forall a, b :: 0 <= a < b < |r| ==> r[a] < r[b]) &&
      (forall i :: 0 <= i < |table| ==> (i in r <==> ModeMatches(otags, table[i].1)))
  {
    if |table| > 0 {
      var n := |table| - 1;
      MatchedIndicesSpec(otags, table[..n]);
      forall i | 0 <= i < n
        ensures table[..n][i] == table[i]
      {
      }
    }
  }

  /** A mode is listed iff one of its tag sets holds on the element. */
  lemma {:induction false} MatchedModesMember(otags: map<string, string>, table: ModeTable, m: string)
    ensures m in MatchedModes(otags, table) <==>
      exists i :: 0 <= i < |table| && table[i].0 == m && ModeMatches(otags, table[i].1)
  {
    var idx := MatchedIndices(otags, table);
    var matched := MatchedModes(otags, table);
    MatchedIndicesSpec(otags, table);
    if m in matched {
      var k :| 0 <= k < |matched| && matched[k] == m;
      assert idx[k] in idx;
    }
    if exists i :: 0 <= i < |table| && table[i].0 == m && ModeMatches(otags, table[i].1) {
      var i :| 0 <= i < |table| && table[i].0 == m && ModeMatches(otags, table[i].1);
      var k :| 0 <= k < |idx| && idx[k] == i;
      assert matched[k] == m;
    }
  }

  /** stoptags2mode returns a mode iff it matched, except that "train" is
      dropped when "subway" or "monorail" matched too. (Mode names in the
      table are distinct, so "train" occurs at most once.) */
  lemma {:induction false} StopModesSpec(otags: map<string, string>, table: ModeTable, m: string)
    requires forall a, b :: 0 <= a < b < |table| ==> table[a].0 != table[b].0
    ensures var matched := MatchedModes(otags, table);
      m in StopModes(otags, table) <==>
        m in matched && (m == "train" ==> "subway" !in matched && "monorail" !in matched)
  {
    var matched := MatchedModes(otags, table);
    if "train" in matched && ("subway" in matched || "monorail" in matched) {
      MatchedModesDistinct(otags, table);
      RemoveSpec(matched, "train", m);
    }
  }

  /** Names that are distinct in the table stay distinct in the result. */
  lemma {:induction false} MatchedModesDistinct(otags: map<string, string>, table: ModeTable)
    requires forall a, b :: 0 <= a < b < |table| ==> table[a].0 != table[b].0
    ensures var r := MatchedModes(otags, table);
      forall a, b :: 0 <= a < b < |r| ==> r[a] != r[b]
  {
    MatchedIndicesSpec(otags, table);
  }

  /** `remove` takes out one occurrence; when it is the only one, exactly
      that name disappears. */
  lemma {:induction false} RemoveSpec(l: seq<string>, x: string, m: string)
    requires x in l
    ensures m != x ==> (m in Remove(l, x) <==> m in l)
    ensures (forall a, b :: 0 <= a < b < |l| ==> l[a] != l[b]) ==> x !in Remove(l, x)
  {
    if l[0] != x {
      RemoveSpec(l[1..], x, m);
    }
  }

  /** The reason for dropping "train": every subway or monorail tag set
      extends a train tag set, so an element that matches subway or monorail
      always matches train as well. The same holds for light rail, for which
      "train" is kept. */
  lemma {:induction false} TrainSubsumes(otags: map<string, string>)
    ensures ModeMatches(otags, StopTags[1].1) ==> ModeMatches(otags, StopTags[0].1)
    ensures ModeMatches(otags, StopTags[2].1) ==> ModeMatches(otags, StopTags[0].1)
    ensures ModeMatches(otags, StopTags[3].1) ==> ModeMatches(otags, StopTags[0].1)
  {
    var train := StopTags[0].1;
    forall i | i in {1, 2, 3} && ModeMatches(otags, StopTags[i].1)
      ensures ModeMatches(otags, train)
    {
      var j :| 0 <= j < |StopTags[i].1| && SubMapping(StopTags[i].1[j], otags);
      assert train[j] == [StopTags[i].1[j][0]];
      assert TagHolds(otags, StopTags[i].1[j][0]);
      assert SubMapping(train[j], otags);
    }
  }

  /** The mode names of `stoptags` are distinct. */
  lemma {:induction false} StopTagsDistinct()
    ensures forall a, b :: 0 <= a < b < |StopTags| ==> StopTags[a].0 != StopTags[b].0
  {
  }

  /** A metro station is reported as a subway stop, not as a train stop,
      although it matches the train tags as well. */
  lemma {:induction false} MetroStationModes()
    ensures var modes := StopModes(map["railway" := "station", "station" := "subway"], StopTags);
      "subway" in modes && "train" !in modes
  {
    var metro := map["railway" := "station", "station" := "subway"];
    assert SubMapping(StopTags[0].1[0], metro);
    assert SubMapping(StopTags[2].1[0], metro);
    MatchedModesMember(metro, StopTags, "train");
    MatchedModesMember(metro, StopTags, "subway");
    StopTagsDistinct();
    StopModesSpec(metro, StopTags, "train");
    StopModesSpec(metro, StopTags, "subway");
  }

  // ------------------------------------------------------------ mode2ovptags

  /** Python truthiness of a tag value: `None` and "" are false. */
  predicate Truthy(v: Option<string>)
  {
    v.Some? && |v.value| > 0
  }

  /** `["k"="v"]` for a value, `[!"k"]` for none. */
  function TagFilter(k: string, v: Option<string>): (r: string)
    ensures |r| > 0 && r[0] == '[' && r[|r| - 1] == ']'
  {
    if Truthy(v) then "[\"" + k + "\"=\"" + v.value + "\"]" else "[!\"" + k + "\"]"
  }

  /** The filters of the first `n` tags of a set, concatenated. */
  function SetFilterOf(tags: TagSet, n: nat): (r: string)
    requires n <= |tags|
    ensures |r| == 0 <==> n == 0
  {
    if n == 0 then ""
    else SetFilterOf(tags, n - 1) + TagFilter(tags[n - 1].0, tags[n - 1].1)
  }

  function SetFilter(tags: TagSet): string
  {
    SetFilterOf(tags, |tags|)
  }

  /** The filter of each tag set; a set's filter is empty iff the set is. */
  function SetFilters(tlist: seq<TagSet>): (r: seq<string>)
    ensures |r| == |tlist|
    ensures forall i :: 0 <= i < |tlist| ==> (|r[i]| == 0 <==> |tlist[i]| == 0)
  {
    seq(|tlist|, i requires 0 <= i < |tlist| => SetFilter(tlist[i]))
  }

  /** `[f for f in fs[:n] if f]`. */
  function NonEmptyOf(fs: seq<string>, n: nat): seq<string>
    requires n <= |fs|
  {
    if n == 0 then []
    else if |fs[n - 1]| > 0 then NonEmptyOf(fs, n - 1) + [fs[n - 1]]
    else NonEmptyOf(fs, n - 1)
  }

  /** The list mode2ovptags returns: the non-empty filters, in order. */
  function Filters(tlist: seq<TagSet>): seq<string>
  {
    NonEmptyOf(SetFilters(tlist), |tlist|)
  }

  /** `modetags[mode]`, `None` for a missing mode (a KeyError). */
  function ModeTags(modetags: ModeTable, mode: string): (r: Option<seq<TagSet>>)
    ensures r.None? <==> forall i :: 0 <= i < |modetags| ==> modetags[i].0 != mode
  {
    if |modetags| == 0 then None
    else if modetags[0].0 == mode then Some(modetags[0].1)
    else ModeTags(modetags[1..], mode)
  }

  function OvpTags(mode: string, modetags: ModeTable): Result<seq<string>>
  {
    match ModeTags(modetags, mode)
    case None => Err(KeyError)
    case Some(tlist) => Ok(Filters(tlist))
  }

  /** osm.mode2ovptags. */
  method Mode2OvpTags(mode: string, modetags: ModeTable) returns (r: Result<seq<string>>)
    ensures r == OvpTags(mode, modetags)
  {
    var found := ModeTags(modetags, mode);
    if found.None? {
      return Err(KeyError);
    }
    var tlist := found.value;
    ghost var fs := SetFilters(tlist);
    var out := [];
    for i := 0 to |tlist|
      invariant out == NonEmptyOf(fs, i)
    {
      var ovp := TagsFilter(tlist[i]);
      assert ovp == fs[i];
      if |ovp| > 0 {
        out := out + [ovp];
      }
    }
    assert out == Filters(tlist);
    return Ok(out);
  }

  /** The inner loop of mode2ovptags: one filter clause appended per tag. */
  method TagsFilter(tags: TagSet) returns (ovp: string)
    ensures ovp == SetFilter(tags)
  {
    ovp := "";
    for t := 0 to |tags|
      invariant ovp == SetFilterOf(tags, t)
    {
      var k, v := tags[t].0, tags[t].1;
      var clause;
      if v.Some? && |v.value| > 0 {
        clause := "[\"" + k + "\"=\"" + v.value + "\"]";
      } else {
        clause := "[!\"" + k + "\"]";
      }
      assert clause == TagFilter(k, v);
      ovp := ovp + clause;
    }
  }

  /** The number of non-empty strings among the first `n`. */
  function NonEmptyCount(fs: seq<string>, n: nat): nat
    requires n <= |fs|
  {
    if n == 0 then 0 else NonEmptyCount(fs, n - 1) + (if |fs[n - 1]| > 0 then 1 else 0)
  }

  /** Only the empty strings are dropped: the result holds the non-empty
      ones in order, so it is as long as their number. */
  lemma {:induction false} NonEmptyOfCount(fs: seq<string>, n: nat)
    requires n <= |fs|
    ensures |NonEmptyOf(fs, n)| == NonEmptyCount(fs, n)
    ensures forall k :: 0 <= k < |NonEmptyOf(fs, n)| ==> |NonEmptyOf(fs, n)[k]| > 0
  {
    if n > 0 {
      NonEmptyOfCount(fs, n - 1);
    }
  }

  /** With no empty string nothing is dropped. */
  lemma {:induction false} NonEmptyOfAll(fs: seq<string>, n: nat)
    requires n <= |fs|
    requires forall i :: 0 <= i < n ==> |fs[i]| > 0
    ensures NonEmptyOf(fs, n) == fs[..n]
  {
    if n > 0 {
      NonEmptyOfAll(fs, n - 1);
      assert fs[..n] == fs[..n - 1] + [fs[n - 1]];
    }
  }

  /** mode2ovptags gives one filter per non-empty tag set; when no set is
      empty, the `i`-th filter is that of the `i`-th set. */
  lemma {:induction false} FiltersSpec(tlist: seq<TagSet>)
    ensures forall k :: 0 <= k < |Filters(tlist)| ==> |Filters(tlist)[k]| > 0
    ensures (forall i :: 0 <= i < |tlist| ==> |tlist[i]| > 0) ==>
      |Filters(tlist)| == |tlist| && forall i :: 0 <= i < |tlist| ==> Filters(tlist)[i] == SetFilter(tlist[i])
  {
    var fs := SetFilters(tlist);
    NonEmptyOfCount(fs, |tlist|);
    if forall i :: 0 <= i < |tlist| ==> |tlist[i]| > 0 {
      NonEmptyOfAll(fs, |tlist|);
      assert fs[..|tlist|] == fs;
    }
  }

  /** The filter of a set is the first tag's clause followed by the filter
      of the remaining tags: one bracketed clause per tag, in order. */
  lemma {:induction false} SetFilterClauses(tags: TagSet, n: nat)
    requires 0 < n <= |tags|
    ensures SetFilterOf(tags, n) == TagFilter(tags[0].0, tags[0].1) + SetFilterOf(tags[1..], n - 1)
  {
    if n > 1 {
      SetFilterClauses(tags, n - 1);
      assert tags[1..][n - 2] == tags[n - 1];
    }
  }

  /** The train station entry of `stationtags` asks for a missing
      `station` tag. */
  lemma {:induction false} StationTrainFilter()
    ensures OvpTags("train", StationTags) == Ok(["[\"railway\"=\"station\"]" + "[!\"station\"]"])
  {
    var tlist := StationTags[1].1;
    assert ModeTags(StationTags, "train") == Some(tlist);
    TrainStationSetFilter();
    assert |SetFilters(tlist)[0]| > 0;
    assert Filters(tlist) == [SetFilter(tlist[0])];
  }

  lemma {:induction false} TrainStationSetFilter()
    ensures SetFilter(StationTags[1].1[0]) == "[\"railway\"=\"station\"]" + "[!\"station\"]"
  {
    var tags := StationTags[1].1[0];
    assert tags == [T("railway", "station"), ("station", None)];
    PairFilter("railway", "station", "station");
    assert "[\"" + "railway" + "\"=\"" + "station" + "\"]" == "[\"railway\"=\"station\"]";
    assert "[!\"" + "station" + "\"]" == "[!\"station\"]";
  }

  lemma {:induction false} PairFilter(k1: string, v1: string, k2: string)
    requires |v1| > 0
    ensures SetFilter([T(k1, v1), (k2, None)]) == ("[\"" + k1 + "\"=\"" + v1 + "\"]") + ("[!\"" + k2 + "\"]")
  {
    var tags := [T(k1, v1), (k2, None)];
    assert SetFilterOf(tags, 1) == TagFilter(k1, Some(v1));
  }

  // ------------------------------------------------------------------- links

  const OsmBase := "https://www.openstreetmap.org/"

  /** osm.relid2url. */
  function RelId2Url(relid: int): string
  {
    OsmBase + "relation/" + IntToStr(relid)
  }

  /** The relation id can be read back from its link. */
  lemma {:induction false} RelId2UrlRoundTrip(relid: int)
    ensures var p := |OsmBase + "relation/"|;
      |RelId2Url(relid)| > p && ParseInt(RelId2Url(relid)[p..]) == relid
  {
    var p := OsmBase + "relation/";
    assert RelId2Url(relid)[|p|..] == IntToStr(relid);
    ParseIntToStr(relid);
  }

  /** `xtype2osm`: element kinds by their one-letter code. */
  function XType2Osm(x: string): Option<string>
  {
    if x == "n" then Some("node")
    else if x == "w" then Some("way")
    else if x == "r" then Some("relation")
    else None
  }

  /** osm.obj2url: the link to an element described by its `x:type` and
      `x:id` entries; a missing entry or an unknown type is a KeyError. */
  function Obj2Url(s: map<string, string>): (r: Result<string>)
    ensures r.Err? <==> "x:type" !in s || XType2Osm(s["x:type"]).None? || "x:id" !in s
    ensures r.Err? ==> r.error == KeyError
  {
    if "x:type" !in s then Err(KeyError)
    else
      match XType2Osm(s["x:type"])
      case None => Err(KeyError)
      case Some(kind) =>
        if "x:id" !in s then Err(KeyError)
        else Ok(OsmBase + kind + "/" + s["x:id"])
  }

  /** Different elements get different links: the link determines the
      element's type and id. */
  lemma {:induction false} Obj2UrlInjective(s1: map<string, string>, s2: map<string, string>)
    requires Obj2Url(s1).Ok? && Obj2Url(s2).Ok? && Obj2Url(s1) == Obj2Url(s2)
    ensures s1["x:type"] == s2["x:type"] && s1["x:id"] == s2["x:id"]
  {
    var u := Obj2Url(s1).value;
    var b := |OsmBase|;
    var k1 := XType2Osm(s1["x:type"]).value;
    var k2 := XType2Osm(s2["x:type"]).value;
    assert u[b] == k1[0] && u[b] == k2[0];
    assert k1 == k2;
    assert u[b + |k1| + 1..] == s1["x:id"];
    assert u[b + |k2| + 1..] == s2["x:id"];
  }
}
