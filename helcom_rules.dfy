/** HELCOM renaming rules (marisco/handlers/helcom.py:579-678) and the
    `SelectAndRenameColumnCB` callback (helcom.py:681-748). A rule set is a
    Python dict from a provider column name to its output name; it is
    modelled as the sequence of its entries in insertion order. */
module HelcomRules {
  import opened Values
  import opened Tables
  import opened Pipeline

  // ---------------------------------------------------------------------------
  // Ordered dictionaries of renaming rules

  datatype Rule = Rule(key: string, target: string)

  /** The entries of one ordered dict, in insertion order. */
  type Rules = seq<Rule>

  predicate HasKey(d: Rules, k: string)
  {
    exists i :: 0 <= i < |d| && d[i].key == k
  }

  /** A Python dict holds each key once. */
  predicate DistinctKeys(d: Rules)
  {
    forall i, j :: 0 <= i < j < |d| ==> d[i].key != d[j].key
  }

  /** `d.get(k)` */
  function Lookup(d: Rules, k: string): (r: Option<string>)
    ensures r.Some? <==> HasKey(d, k)
    ensures r.Some? ==> Rule(k, r.value) in d
  {
    if d == [] then None
    else if d[0].key == k then Some(d[0].target)
    else
      assert forall i :: 1 <= i < |d| ==> d[i] == d[1..][i - 1];
      Lookup(d[1..], k)
  }

  /** In a dict each entry is what its key looks up. */
  lemma {:induction false} LookupAt(d: Rules, i: nat)
    requires DistinctKeys(d) && i < |d|
    ensures Lookup(d, d[i].key) == Some(d[i].target)
  {
    if i > 0 {
      assert d[0].key != d[i].key;
      assert d[1..][i - 1] == d[i];
      assert DistinctKeys(d[1..]) by {
        forall a, b | 0 <= a < b < |d[1..]| ensures d[1..][a].key != d[1..][b].key {
          assert d[1..][a] == d[a + 1] && d[1..][b] == d[b + 1];
        }
      }
      LookupAt(d[1..], i - 1);
    }
  }

  /** `d[k] = v`: an existing key keeps its place, a new one goes last. */
  function Put(d: Rules, k: string, v: string): (r: Rules)
    ensures HasKey(d, k) ==> |r| == |d| && forall i :: 0 <= i < |d| ==> r[i].key == d[i].key
    ensures !HasKey(d, k) ==> r == d + [Rule(k, v)]
  {
    if d == [] then [Rule(k, v)]
    else if d[0].key == k then [Rule(k, v)] + d[1..]
    else
      var rest := Put(d[1..], k, v);
      assert HasKey(d, k) <==> HasKey(d[1..], k) by {
        if HasKey(d, k) {
          var i :| 0 <= i < |d| && d[i].key == k;
          assert d[1..][i - 1] == d[i];
        }
        if HasKey(d[1..], k) {
          var i :| 0 <= i < |d[1..]| && d[1..][i].key == k;
          assert d[i + 1] == d[1..][i];
        }
      }
      [d[0]] + rest
  }

  /** After `d[k] = v`, `k` looks up `v` and every other key is as before. */
  lemma {:induction false} PutLookup(d: Rules, k: string, v: string, k': string)
    ensures Lookup(Put(d, k, v), k) == Some(v)
    ensures k' != k ==> Lookup(Put(d, k, v), k') == Lookup(d, k')
  {
    var r := Put(d, k, v);
    if d != [] && d[0].key != k {
      assert r[0] == d[0] && r[1..] == Put(d[1..], k, v);
      PutLookup(d[1..], k, v, k');
    } else if d != [] {
      assert r[0] == Rule(k, v) && r[1..] == d[1..];
    }
  }

  lemma {:induction false} PutDistinct(d: Rules, k: string, v: string)
    requires DistinctKeys(d)
    ensures DistinctKeys(Put(d, k, v))
  {
    var r := Put(d, k, v);
    if !HasKey(d, k) {
      forall i | 0 <= i < |d| ensures r[i].key != k {
        assert d[i].key != k;
      }
    }
  }

  /** `d.update(e)`: the entries of `e` put into `d` one after another. */
  function Update(d: Rules, e: Rules): (r: Rules)
    decreases |e|
  {
    if e == [] then d else Update(Put(d, e[0].key, e[0].target), e[1..])
  }

  /** After `d.update(e)` a key of `e` looks up its value in `e` and every
      other key what it looked up in `d`; no key is duplicated. */
  lemma {:induction false} UpdateLookup(d: Rules, e: Rules, k: string)
    requires DistinctKeys(e)
    ensures Lookup(Update(d, e), k) == if HasKey(e, k) then Lookup(e, k) else Lookup(d, k)
    ensures DistinctKeys(d) ==> DistinctKeys(Update(d, e))
    decreases |e|
  {
    if e != [] {
      var d1 := Put(d, e[0].key, e[0].target);
      PutLookup(d, e[0].key, e[0].target, k);
      if DistinctKeys(d) {
        PutDistinct(d, e[0].key, e[0].target);
      }
      assert DistinctKeys(e[1..]) by {
        forall a, b | 0 <= a < b < |e[1..]| ensures e[1..][a].key != e[1..][b].key {
          assert e[1..][a] == e[a + 1] && e[1..][b] == e[b + 1];
        }
      }
      UpdateLookup(d1, e[1..], k);
      if k != e[0].key && HasKey(e, k) {
        var i :| 0 <= i < |e| && e[i].key == k;
        assert e[1..][i - 1].key == k;
      }
    }
  }

  /** `UpdateLookup` for every key at once. */
  lemma UpdateLookupAll(d: Rules, e: Rules)
    requires DistinctKeys(d) && DistinctKeys(e)
    ensures DistinctKeys(Update(d, e))
    ensures forall k :: Lookup(Update(d, e), k) == if HasKey(e, k) then Lookup(e, k) else Lookup(d, k)
  {
    forall k ensures Lookup(Update(d, e), k) == if HasKey(e, k) then Lookup(e, k) else Lookup(d, k) {
      UpdateLookup(d, e, k);
    }
    UpdateLookup(d, e, "");
  }

  /** `d.update(e)` keeps the keys of `d` unique. */
  lemma {:induction false} UpdateDistinct(d: Rules, e: Rules)
    ensures DistinctKeys(d) ==> DistinctKeys(Update(d, e))
    decreases |e|
  {
    if e != [] {
      var d1 := Put(d, e[0].key, e[0].target);
      if DistinctKeys(d) {
        PutDistinct(d, e[0].key, e[0].target);
      }
      UpdateDistinct(d1, e[1..]);
    }
  }

  /** Keys already in `d` keep their positions; new keys follow them. */
  lemma {:induction false} UpdateKeepsOrder(d: Rules, e: Rules)
    ensures var r := Update(d, e); |r| >= |d| && forall i :: 0 <= i < |d| ==> r[i].key == d[i].key
    decreases |e|
  {
    if e != [] {
      var d1 := Put(d, e[0].key, e[0].target);
      UpdateKeepsOrder(d1, e[1..]);
    }
  }

  /** Updating a dict with entries of keys it lacks appends them. */
  lemma {:induction false} UpdateFresh(d: Rules, e: Rules)
    requires DistinctKeys(e)
    requires forall i :: 0 <= i < |e| ==> !HasKey(d, e[i].key)
    ensures Update(d, e) == d + e
    decreases |e|
  {
    if e != [] {
      var d1 := d + [e[0]];
      assert Put(d, e[0].key, e[0].target) == d1;
      forall i | 0 <= i < |e[1..]| ensures !HasKey(d1, e[1..][i].key) {
        assert e[1..][i] == e[i + 1];
        assert e[i + 1].key != e[0].key;
      }
      assert DistinctKeys(e[1..]) by {
        forall a, b | 0 <= a < b < |e[1..]| ensures e[1..][a].key != e[1..][b].key {
          assert e[1..][a] == e[a + 1] && e[1..][b] == e[b + 1];
        }
      }
      UpdateFresh(d1, e[1..]);
      assert d1 + e[1..] == d + e;
    }
  }

  // ---------------------------------------------------------------------------
  // Rule builders

  /** The output names the NetCDF configuration (`cdl_cfg()['vars']`) gives;
      the configuration file is read elsewhere. */
  datatype NcNames = NcNames(
    lat: string, lon: string, time: string, smpDepth: string, totDepth: string,
    detectionLimit: string, unit: string, uncertainty: string,
    countingMethod: string, samplingMethod: string, preparationMethod: string,
    salinity: string, temperature: string,
    species: string, bodyPart: string, bioGroup: string,
    sedType: string, top: string, bottom: string)

  /** The dict literal `get_common_rules` starts from. */
  function BaseCommonRules(v: NcNames, enc: string): Rules
  {
    var open := enc == "openrefine";
    [Rule("KEY", "key"),
     Rule("lat", if open then "latitude" else v.lat),
     Rule("lon", if open then "longitude" else v.lon),
     Rule("time", if open then "begperiod" else v.time),
     Rule("NUCLIDE", if open then "nuclide_id" else "nuclide"),
     Rule("detection_limit", if open then "detection" else v.detectionLimit),
     Rule("unit", if open then "unit_id" else v.unit),
     Rule("value", if open then "activity" else "value"),
     Rule("uncertainty", if open then "uncertaint" else v.uncertainty),
     Rule("SDEPTH", if open then "sampdepth" else v.smpDepth),
     Rule("TDEPTH", if open then "totdepth" else v.totDepth)]
  }

  /** The entries `get_common_rules` adds with `update` for the encoding. */
  function ExtraCommonRules(v: NcNames, enc: string): Rules
  {
    if enc == "openrefine" then
      [Rule("samptype_id", "samptype_id"),
       Rule("station", "station"),
       Rule("samplabcode", "samplabcode"),
       Rule("SALIN", "salinity"),
       Rule("TTEMP", "temperatur"),
       Rule("FILT", "filtered"),
       Rule("measurenote", "measurenote")]
    else
      [Rule("counting_method", v.countingMethod),
       Rule("sampling_method", v.samplingMethod),
       Rule("preparation_method", v.preparationMethod),
       Rule("SALIN", v.salinity),
       Rule("TTEMP", v.temperature)]
  }

  /** `get_common_rules`: the base dict updated with the entries of the
      encoding, so an added entry wins over a base entry with its key. */
  function CommonRules(v: NcNames, enc: string): (r: Rules)
    ensures DistinctKeys(r)
    ensures forall k :: Lookup(r, k) ==
              if HasKey(ExtraCommonRules(v, enc), k) then Lookup(ExtraCommonRules(v, enc), k)
              else Lookup(BaseCommonRules(v, enc), k)
  {
    BaseCommonRulesDistinct(v, enc);
    ExtraCommonRulesDistinct(v, enc);
    UpdateLookupAll(BaseCommonRules(v, enc), ExtraCommonRules(v, enc));
    Update(BaseCommonRules(v, enc), ExtraCommonRules(v, enc))
  }

  /** `get_specific_rules`; any other encoding falls through to `None`. */
  function SpecificRules(v: NcNames, enc: string): (r: Option<map<string, Rules>>)
    ensures r.Some? <==> enc == "netcdf" || enc == "openrefine"
    ensures r.Some? ==> r.value.Keys == {"biota", "sediment"}
  {
    if enc == "netcdf" then
      Some(map[
        "biota" := [Rule("species", v.species), Rule("body_part", v.bodyPart), Rule("bio_group", v.bioGroup)],
        "sediment" := [Rule("sed_type", v.sedType), Rule("top", v.top), Rule("bottom", v.bottom)]])
    else if enc == "openrefine" then
      Some(map[
        "biota" := [
          Rule("species", "species_id"), Rule("Taxonname", "Taxonname"), Rule("TaxonRepName", "TaxonRepName"),
          Rule("Taxonrank", "Taxonrank"), Rule("TaxonDB", "TaxonDB"), Rule("TaxonDBID", "TaxonDBID"),
          Rule("TaxonDBURL", "TaxonDBURL"), Rule("body_part", "bodypar_id"), Rule("dry_wet_ratio", "percentwt")],
        "sediment" := [
          Rule("sed_type", "sedtype_id"), Rule("top", "sliceup"), Rule("bottom", "slicedown"),
          Rule("SedRepName", "SedRepName"), Rule("dry_wet_ratio", "percentwt")]])
    else None
  }

  /** The rules of one entry of the renaming-rules dict. */
  datatype GroupRules = GroupRules(group: string, rules: Rules)

  function SpecificFor(spec: map<string, Rules>, g: string): Rules
  {
    if g in spec then spec[g] else []
  }

  /** The encodings `get_renaming_rules` accepts. */
  predicate KnownEncoding(enc: string)
  {
    enc == "netcdf" || enc == "openrefine"
  }

  /** `get_renaming_rules`: the common rules overridden by each group's
      specific ones, for seawater, biota and sediment in that order. */
  function RenamingRules(v: NcNames, enc: string): (r: Result<seq<GroupRules>>)
    ensures r.Err? <==> !KnownEncoding(enc)
    ensures r.Ok? ==> |r.value| == 3 && r.value[0].group == "seawater" &&
                      r.value[1].group == "biota" && r.value[2].group == "sediment"
  {
    if !KnownEncoding(enc) then
      Err("Invalid encoding_type provided. Please use 'netcdf' or 'openrefine'.")
    else
      var common := CommonRules(v, enc);
      var spec := SpecificRules(v, enc).value;
      Ok([SampleTypeRules(common, spec, "seawater"),
          SampleTypeRules(common, spec, "biota"),
          SampleTypeRules(common, spec, "sediment")])
  }

  /** One entry of `get_renaming_rules`: a copy of the common rules updated
      with the sample type's specific ones. */
  function SampleTypeRules(common: Rules, spec: map<string, Rules>, g: string): (e: GroupRules)
    ensures e.group == g
  {
    GroupRules(g, Update(common, SpecificFor(spec, g)))
  }

  /** An entry of `d.update(e)` comes from `d` or from `e`. */
  lemma {:induction false} UpdateEntries(d: Rules, e: Rules, x: Rule)
    requires x in Update(d, e)
    ensures x in d || x in e
    decreases |e|
  {
    if e != [] {
      var d1 := Put(d, e[0].key, e[0].target);
      UpdateEntries(d1, e[1..], x);
      if x in d1 {
        PutEntries(d, e[0].key, e[0].target, x);
      }
    }
  }

  lemma {:induction false} PutEntries(d: Rules, k: string, v: string, x: Rule)
    requires x in Put(d, k, v)
    ensures x in d || x == Rule(k, v)
  {
    if d != [] && d[0].key != k {
      var rest := Put(d[1..], k, v);
      if x in rest {
        PutEntries(d[1..], k, v, x);
      }
    }
  }

  lemma BaseCommonRulesDistinct(v: NcNames, enc: string)
    ensures DistinctKeys(BaseCommonRules(v, enc))
  {
  }

  lemma ExtraCommonRulesDistinct(v: NcNames, enc: string)
    ensures DistinctKeys(ExtraCommonRules(v, enc))
  {
  }


  lemma SpecificRulesDistinct(v: NcNames, enc: string, g: string)
    requires KnownEncoding(enc)
    ensures DistinctKeys(SpecificFor(SpecificRules(v, enc).value, g))
  {
    if enc == "netcdf" {
      NetCdfSpecificDistinct(v, g);
    } else {
      OpenRefineSpecificDistinct(v, g);
    }
  }

  lemma NetCdfSpecificDistinct(v: NcNames, g: string)
    ensures DistinctKeys(SpecificFor(SpecificRules(v, "netcdf").value, g))
  {
  }

  lemma OpenRefineSpecificDistinct(v: NcNames, g: string)
    ensures DistinctKeys(SpecificFor(SpecificRules(v, "openrefine").value, g))
  {
    var spec := SpecificRules(v, "openrefine").value;
    if g == "biota" {
      assert SpecificFor(spec, g) == spec["biota"];
    } else if g == "sediment" {
      assert SpecificFor(spec, g) == spec["sediment"];
    }
  }

  /** Each group's rules are its specific rules where they name a key and
      the common rules elsewhere, each key once. */
  lemma RenamingRulesOverride(v: NcNames, enc: string, i: nat, k: string)
    requires KnownEncoding(enc) && i < 3
    ensures var e := RenamingRules(v, enc).value[i];
            var spec := SpecificFor(SpecificRules(v, enc).value, e.group);
            && DistinctKeys(e.rules)
            && Lookup(e.rules, k) == (if HasKey(spec, k) then Lookup(spec, k) else Lookup(CommonRules(v, enc), k))
  {
    var e := RenamingRules(v, enc).value[i];
    var spec := SpecificFor(SpecificRules(v, enc).value, e.group);
    RenamingRulesEntry(v, enc, i);
    assert e.rules == Update(CommonRules(v, enc), spec);
    SpecificRulesDistinct(v, enc, e.group);
    UpdateLookup(CommonRules(v, enc), spec, k);
  }

  // ---------------------------------------------------------------------------
  // _get_group_rules

  /** `needle` matches `hay` from position `i + k` on, for its characters from `k` on. */
  function MatchAt(hay: string, needle: string, i: nat, k: nat): bool
    decreases |needle| - k
  {
    k >= |needle| || (i + k < |hay| && hay[i + k] == needle[k] && MatchAt(hay, needle, i, k + 1))
  }

  function ContainsFrom(hay: string, needle: string, i: nat): bool
    decreases |hay| - i
  {
    MatchAt(hay, needle, i, 0) || (i < |hay| && ContainsFrom(hay, needle, i + 1))
  }

  /** Python's `needle in hay` on strings. */
  function Contains(hay: string, needle: string): bool
  {
    ContainsFrom(hay, needle, 0)
  }

  predicate OccursAt(hay: string, needle: string, i: nat)
  {
    i + |needle| <= |hay| && hay[i..i + |needle|] == needle
  }

  lemma {:induction false} MatchAtExact(hay: string, needle: string, i: nat, k: nat)
    requires k <= |needle|
    ensures MatchAt(hay, needle, i, k) <==>
            (k == |needle| || i + |needle| <= |hay|) && forall m :: k <= m < |needle| ==> hay[i + m] == needle[m]
    decreases |needle| - k
  {
    if k < |needle| {
      MatchAtExact(hay, needle, i, k + 1);
    }
  }

  lemma {:induction false} ContainsFromExact(hay: string, needle: string, i: nat)
    requires i <= |hay|
    ensures ContainsFrom(hay, needle, i) <==> exists j: nat :: i <= j && OccursAt(hay, needle, j)
    decreases |hay| - i
  {
    MatchAtExact(hay, needle, i, 0);
    assert MatchAt(hay, needle, i, 0) <==> OccursAt(hay, needle, i) by {
      if MatchAt(hay, needle, i, 0) {
        assert i + |needle| <= |hay|;
        assert hay[i..i + |needle|] == needle;
      }
      if OccursAt(hay, needle, i) {
        forall m | 0 <= m < |needle| ensures hay[i + m] == needle[m] {
          assert hay[i..i + |needle|][m] == needle[m];
        }
      }
    }
    if i < |hay| {
      ContainsFromExact(hay, needle, i + 1);
      if exists j: nat :: i <= j && OccursAt(hay, needle, j) {
        var j: nat :| i <= j && OccursAt(hay, needle, j);
        if j != i {
          assert i + 1 <= j;
        }
      }
    } else if exists j: nat :: i <= j && OccursAt(hay, needle, j) {
      var j: nat :| i <= j && OccursAt(hay, needle, j);
      assert |needle| == 0 || j < |hay|;
    }
  }

  /** The recursive test agrees with the meaning of `in`: `needle` occurs at
      some position of `hay`. */
  lemma ContainsExact(hay: string, needle: string)
    ensures Contains(hay, needle) <==> exists i: nat :: OccursAt(hay, needle, i)
  {
    ContainsFromExact(hay, needle, 0);
  }

  /** The loop of `_get_group_rules` from the rules merged so far. */
  function MergeRules(rr: seq<GroupRules>, group: string, acc: Rules): (r: Rules)
    ensures DistinctKeys(acc) && AllDistinct(rr) ==> DistinctKeys(r)
    decreases |rr|
  {
    if rr == [] then acc
    else
      UpdateDistinct(acc, rr[0].rules);
      assert forall j :: 0 <= j < |rr[1..]| ==> rr[1..][j] == rr[j + 1];
      MergeRules(rr[1..], group, if Contains(rr[0].group, group) then Update(acc, rr[0].rules) else acc)
  }

  /** Every entry's rules form a dict: no key twice. */
  predicate AllDistinct(rr: seq<GroupRules>)
  {
    forall j :: 0 <= j < |rr| ==> DistinctKeys(rr[j].rules)
  }

  /** `_get_group_rules`: the rules of every entry whose name contains the
      group name as a substring, merged in order; a dict again. */
  function GroupRulesOf(rr: seq<GroupRules>, group: string): (r: Rules)
    ensures AllDistinct(rr) ==> DistinctKeys(r)
  {
    MergeRules(rr, group, [])
  }

  lemma {:induction false} MergeNone(rr: seq<GroupRules>, group: string, acc: Rules)
    requires forall j :: 0 <= j < |rr| ==> !Contains(rr[j].group, group)
    ensures MergeRules(rr, group, acc) == acc
    decreases |rr|
  {
    if rr != [] {
      assert forall j :: 0 <= j < |rr[1..]| ==> rr[1..][j] == rr[j + 1];
      MergeNone(rr[1..], group, acc);
    }
  }

  lemma {:induction false} MergeSingle(rr: seq<GroupRules>, group: string, acc: Rules, i: nat)
    requires i < |rr| && Contains(rr[i].group, group)
    requires forall j :: 0 <= j < |rr| && j != i ==> !Contains(rr[j].group, group)
    ensures MergeRules(rr, group, acc) == Update(acc, rr[i].rules)
    decreases |rr|
  {
    assert forall j :: 0 <= j < |rr[1..]| ==> rr[1..][j] == rr[j + 1];
    if i == 0 {
      MergeNone(rr[1..], group, Update(acc, rr[0].rules));
    } else {
      MergeSingle(rr[1..], group, acc, i - 1);
    }
  }

  /** When exactly one entry's name contains the group name, the group gets
      exactly that entry's rules. */
  lemma GroupRulesSingle(rr: seq<GroupRules>, group: string, i: nat)
    requires i < |rr| && Contains(rr[i].group, group) && DistinctKeys(rr[i].rules)
    requires forall j :: 0 <= j < |rr| && j != i ==> !Contains(rr[j].group, group)
    ensures GroupRulesOf(rr, group) == rr[i].rules
  {
    MergeSingle(rr, group, [], i);
    UpdateFresh([], rr[i].rules);
  }

  lemma SeawaterNameFacts()
    ensures Contains("seawater", "seawater") && !Contains("biota", "seawater") && !Contains("sediment", "seawater")
  {
  }

  lemma BiotaNameFacts()
    ensures Contains("biota", "biota") && !Contains("seawater", "biota") && !Contains("sediment", "biota")
  {
  }

  lemma SedimentNameFacts()
    ensures Contains("sediment", "sediment") && !Contains("seawater", "sediment") && !Contains("biota", "sediment")
  {
  }

  lemma OneOfThree(rr: seq<GroupRules>, g: string, i: nat)
    requires |rr| == 3 && i < 3 && Contains(rr[i].group, g) && DistinctKeys(rr[i].rules)
    requires forall j :: 0 <= j < 3 && j != i ==> !Contains(rr[j].group, g)
    ensures GroupRulesOf(rr, g) == rr[i].rules
  {
    GroupRulesSingle(rr, g, i);
  }

  /** The shape of the `get_renaming_rules` result: the three entries in
      order, each a dict. */
  predicate StandardEntries(rr: seq<GroupRules>)
  {
    && |rr| == 3 && rr[0].group == "seawater" && rr[1].group == "biota" && rr[2].group == "sediment"
    && DistinctKeys(rr[0].rules) && DistinctKeys(rr[1].rules) && DistinctKeys(rr[2].rules)
  }

  lemma RenamingRulesStandard(v: NcNames, enc: string)
    requires KnownEncoding(enc)
    ensures StandardEntries(RenamingRules(v, enc).value)
  {
    RenamingRulesOverride(v, enc, 0, "");
    RenamingRulesOverride(v, enc, 1, "");
    RenamingRulesOverride(v, enc, 2, "");
  }

  /** The seawater group gets exactly the seawater entry. */
  lemma SeawaterGroupRules(rr: seq<GroupRules>)
    requires StandardEntries(rr)
    ensures GroupRulesOf(rr, "seawater") == rr[0].rules
  {
    SeawaterNameFacts();
    OneOfThree(rr, "seawater", 0);
  }

  /** The biota group gets exactly the biota entry. */
  lemma BiotaGroupRules(rr: seq<GroupRules>)
    requires StandardEntries(rr)
    ensures GroupRulesOf(rr, "biota") == rr[1].rules
  {
    BiotaNameFacts();
    OneOfThree(rr, "biota", 1);
  }

  /** The sediment group gets exactly the sediment entry. */
  lemma SedimentGroupRules(rr: seq<GroupRules>)
    requires StandardEntries(rr)
    ensures GroupRulesOf(rr, "sediment") == rr[2].rules
  {
    SedimentNameFacts();
    OneOfThree(rr, "sediment", 2);
  }

  /** The group's rules, for the three sample types. */
  lemma StandardGroupRules(rr: seq<GroupRules>, g: string) returns (j: nat)
    requires StandardEntries(rr) && (g == "seawater" || g == "biota" || g == "sediment")
    ensures j < 3 && GroupRulesOf(rr, g) == rr[j].rules && AllDistinct(rr)
  {
    if g == "seawater" {
      SeawaterGroupRules(rr);
      j := 0;
    } else if g == "biota" {
      BiotaGroupRules(rr);
      j := 1;
    } else {
      SedimentGroupRules(rr);
      j := 2;
    }
  }

  // ---------------------------------------------------------------------------
  // _apply_renaming

  function KeysOf(d: Rules): (r: seq<string>)
    ensures |r| == |d| && forall i :: 0 <= i < |d| ==> r[i] == d[i].key
  {
    seq(|d|, i requires 0 <= i < |d| => d[i].key)
  }

  function TargetsOf(d: Rules): (r: seq<string>)
    ensures |r| == |d| && forall i :: 0 <= i < |d| ==> r[i] == d[i].target
  {
    seq(|d|, i requires 0 <= i < |d| => d[i].target)
  }

  function KeyIn(cols: seq<string>): Rule -> bool
  {
    (r: Rule) => r.key in cols
  }

  function In(cols: seq<string>): string -> bool
  {
    (c: string) => c in cols
  }

  /** `valid_rules`: the rules whose key is an existing column, in rule order. */
  function ValidRules(rules: Rules, cols: seq<string>): Rules
  {
    Filter(rules, KeyIn(cols))
  }

  /** `OrderedDict.fromkeys(s)` for the labels not in `seen`: first
      occurrences, in order. */
  function Dedupe(s: seq<string>, seen: set<string>): seq<string>
    decreases |s|
  {
    if s == [] then []
    else if s[0] in seen then Dedupe(s[1..], seen)
    else [s[0]] + Dedupe(s[1..], seen + {s[0]})
  }

  /** The result holds each label of `s` outside `seen` exactly once. */
  lemma {:induction false} DedupeMembers(s: seq<string>, seen: set<string>)
    ensures Distinct(Dedupe(s, seen))
    ensures forall x :: x in Dedupe(s, seen) <==> x in s && x !in seen
    decreases |s|
  {
    if s != [] {
      assert s == [s[0]] + s[1..];
      if s[0] in seen {
        DedupeMembers(s[1..], seen);
      } else {
        var rest := Dedupe(s[1..], seen + {s[0]});
        DedupeMembers(s[1..], seen + {s[0]});
        assert forall k :: 1 <= k <= |rest| ==> ([s[0]] + rest)[k] == rest[k - 1];
      }
    }
  }

  lemma ColSetCons(a: seq<string>)
    requires a != []
    ensures ColSet(a) == {a[0]} + ColSet(a[1..])
  {
    assert a == [a[0]] + a[1..];
  }

  lemma DistinctTail(a: seq<string>)
    requires a != [] && Distinct(a)
    ensures Distinct(a[1..]) && a[0] !in a[1..]
  {
    forall i, j | 0 <= i < j < |a[1..]| ensures a[1..][i] != a[1..][j] {
      assert a[1..][i] == a[i + 1] && a[1..][j] == a[j + 1];
    }
  }

  /** Deduplicating a distinct prefix leaves it in place. */
  lemma {:induction false} DedupeDistinctPrefix(a: seq<string>, b: seq<string>, seen: set<string>)
    requires Distinct(a) && forall x :: x in a ==> x !in seen
    ensures Dedupe(a + b, seen) == a + Dedupe(b, seen + ColSet(a))
    decreases |a|
  {
    if a == [] {
      assert a + b == b;
      assert seen + ColSet(a) == seen;
    } else {
      var seen1 := seen + {a[0]};
      assert (a + b)[0] == a[0] && (a + b)[1..] == a[1..] + b;
      DistinctTail(a);
      ColSetCons(a);
      DedupeDistinctPrefix(a[1..], b, seen1);
      assert seen1 + ColSet(a[1..]) == seen + ColSet(a);
      assert a == [a[0]] + a[1..];
    }
  }

  /** `columns_to_keep` after `OrderedDict.fromkeys`: the existing rule keys,
      then the existing columns that already bear a target name. */
  function Kept(rules: Rules, cols: seq<string>): seq<string>
  {
    var valid := ValidRules(rules, cols);
    Dedupe(KeysOf(valid) + Filter(TargetsOf(valid), In(cols)), {})
  }

  /** `df.rename(columns=valid_rules)` on one label. */
  function RenameCol(valid: Rules, c: string): string
  {
    match Lookup(valid, c)
    case Some(t) => t
    case None => c
  }

  /** Each kept column with its output name. */
  function Renames(rules: Rules, cols: seq<string>): (r: Rules)
    ensures |r| == |Kept(rules, cols)|
    ensures forall k :: 0 <= k < |r| ==> r[k].key == Kept(rules, cols)[k]
  {
    var valid := ValidRules(rules, cols);
    var kept := Kept(rules, cols);
    seq(|kept|, i requires 0 <= i < |kept| => Rule(kept[i], RenameCol(valid, kept[i])))
  }

  /** The column labels `_apply_renaming` produces. */
  function OutCols(rules: Rules, cols: seq<string>): seq<string>
  {
    TargetsOf(Renames(rules, cols))
  }

  function RenameRow(ren: Rules, row: Row): (r: Row)
    requires Distinct(TargetsOf(ren))
    ensures r.Keys == ColSet(TargetsOf(ren))
    ensures forall k :: 0 <= k < |ren| ==> r[ren[k].target] == Cell(row, ren[k].key)
  {
    var out := TargetsOf(ren);
    var r := map c | c in ColSet(out) :: Cell(row, ren[IndexOf(out, c)].key);
    assert forall k :: 0 <= k < |ren| ==> IndexOf(out, out[k]) == k;
    r
  }

  function IndexOf(s: seq<string>, c: string): (i: nat)
    requires c in s
    ensures i < |s| && s[i] == c
    ensures Distinct(s) ==> forall k :: 0 <= k < |s| && s[k] == c ==> k == i
  {
    if s[0] == c then 0 else 1 + IndexOf(s[1..], c)
  }

  /** `_apply_renaming`'s table: the kept columns in order, under their new
      names. Python would allow two columns to end up with one label; the
      model requires the output labels to be distinct. */
  function ApplyRenaming(t: Table, rules: Rules): (r: Table)
    requires Valid(t) && Distinct(OutCols(rules, t.cols))
    ensures Valid(r) && r.cols == OutCols(rules, t.cols) && |r.rows| == |t.rows|
    ensures var ren := Renames(rules, t.cols);
            forall i, k :: 0 <= i < |t.rows| && 0 <= k < |ren| ==>
              r.rows[i][ren[k].target] == Cell(t.rows[i], ren[k].key)
  {
    var ren := Renames(rules, t.cols);
    Table(OutCols(rules, t.cols), seq(|t.rows|, i requires 0 <= i < |t.rows| => RenameRow(ren, t.rows[i])))
  }

  /** The applied rules are the rules whose key exists, in rule order, each
      key once. */
  lemma ValidRulesInOrder(rules: Rules, cols: seq<string>)
    requires DistinctKeys(rules)
    ensures var valid := ValidRules(rules, cols);
            && SelectsInOrder(valid, rules, KeyIn(cols), KeptIndices(rules, KeyIn(cols)))
            && DistinctKeys(valid)
            && forall x :: x in valid <==> x in rules && x.key in cols
  {
    var valid := ValidRules(rules, cols);
    FilterKeepsOrder(rules, KeyIn(cols));
    FilterMembers(rules, KeyIn(cols));
    var idx := KeptIndices(rules, KeyIn(cols));
    forall a, b | 0 <= a < b < |valid| ensures valid[a].key != valid[b].key {
      assert idx[a] < idx[b];
    }
  }

  lemma HasKeyIn(d: Rules, k: string)
    ensures HasKey(d, k) <==> k in KeysOf(d)
  {
    if HasKey(d, k) {
      var i :| 0 <= i < |d| && d[i].key == k;
      assert KeysOf(d)[i] == k;
    }
  }

  /** The part of the kept columns after the rule keys. */
  function KeptTail(rules: Rules, cols: seq<string>): seq<string>
  {
    var valid := ValidRules(rules, cols);
    Dedupe(Filter(TargetsOf(valid), In(cols)), ColSet(KeysOf(valid)))
  }

  /** The kept columns are the applied rule keys followed by the existing
      target-named columns that are not keys. */
  lemma KeptSplit(rules: Rules, cols: seq<string>)
    requires DistinctKeys(rules)
    ensures Kept(rules, cols) == KeysOf(ValidRules(rules, cols)) + KeptTail(rules, cols)
    ensures forall x :: x in KeptTail(rules, cols) <==>
              x in cols && x in TargetsOf(ValidRules(rules, cols)) && !HasKey(ValidRules(rules, cols), x)
  {
    var valid := ValidRules(rules, cols);
    ValidRulesInOrder(rules, cols);
    var keys := KeysOf(valid);
    var targets := Filter(TargetsOf(valid), In(cols));
    FilterMembers(TargetsOf(valid), In(cols));
    assert Distinct(keys);
    DedupeDistinctPrefix(keys, targets, {});
    assert {} + ColSet(keys) == ColSet(keys);
    DedupeMembers(targets, ColSet(keys));
    forall x ensures HasKey(valid, x) <==> x in keys {
      HasKeyIn(valid, x);
    }
  }

  /** The first entries rename the applied rule keys, in rule order. */
  lemma RenamesHead(rules: Rules, cols: seq<string>)
    requires DistinctKeys(rules)
    ensures var valid := ValidRules(rules, cols);
            |Renames(rules, cols)| >= |valid| &&
            forall k :: 0 <= k < |valid| ==> Renames(rules, cols)[k] == valid[k]
  {
    var valid := ValidRules(rules, cols);
    KeptSplit(rules, cols);
    ValidRulesInOrder(rules, cols);
    forall k | 0 <= k < |valid| ensures Renames(rules, cols)[k] == valid[k] {
      LookupAt(valid, k);
    }
  }

  /** The remaining entries keep existing columns that bear the target name
      of an applied rule, under that name. */
  lemma RenamesTail(rules: Rules, cols: seq<string>)
    requires DistinctKeys(rules)
    ensures var valid := ValidRules(rules, cols);
            var ren := Renames(rules, cols);
            forall k :: |valid| <= k < |ren| ==>
              ren[k].key == ren[k].target && ren[k].key in cols &&
              ren[k].key in TargetsOf(valid) && !HasKey(valid, ren[k].key)
  {
    var valid := ValidRules(rules, cols);
    var ren := Renames(rules, cols);
    KeptSplit(rules, cols);
    forall k | |valid| <= k < |ren|
      ensures ren[k].key == ren[k].target && ren[k].key in cols
      ensures ren[k].key in TargetsOf(valid) && !HasKey(valid, ren[k].key)
    {
      assert ren[k].key == KeptTail(rules, cols)[k - |valid|];
    }
  }

  /** A column survives `_apply_renaming` exactly when it is the target of
      an applied rule: every other column is dropped. */
  lemma OutColsExact(rules: Rules, cols: seq<string>, c: string)
    requires DistinctKeys(rules)
    ensures c in OutCols(rules, cols) <==> c in TargetsOf(ValidRules(rules, cols))
  {
    var valid := ValidRules(rules, cols);
    var out := OutCols(rules, cols);
    RenamesHead(rules, cols);
    RenamesTail(rules, cols);
    if c in out {
      var k :| 0 <= k < |out| && out[k] == c;
      if k < |valid| {
        assert TargetsOf(valid)[k] == c;
      }
    }
    if c in TargetsOf(valid) {
      var k :| 0 <= k < |valid| && TargetsOf(valid)[k] == c;
      assert out[k] == c;
    }
  }

  /** As written, the columns kept because they already bear a target name
      always repeat the label of a renamed column. */
  lemma PreexistingTargetsCollide(rules: Rules, cols: seq<string>)
    requires DistinctKeys(rules)
    ensures var valid := ValidRules(rules, cols);
            var out := OutCols(rules, cols);
            forall k :: |valid| <= k < |out| ==> out[k] in out[..|valid|]
  {
    var valid := ValidRules(rules, cols);
    var out := OutCols(rules, cols);
    RenamesHead(rules, cols);
    RenamesTail(rules, cols);
    forall k | |valid| <= k < |out| ensures out[k] in out[..|valid|] {
      var j :| 0 <= j < |valid| && TargetsOf(valid)[j] == out[k];
      assert out[..|valid|][j] == out[k];
    }
  }

  /** Any column after the renamed rule keys makes the labels collide. */
  lemma TailBreaksDistinct(rules: Rules, cols: seq<string>)
    requires DistinctKeys(rules)
    ensures |OutCols(rules, cols)| > |ValidRules(rules, cols)| ==> !Distinct(OutCols(rules, cols))
  {
    var valid := ValidRules(rules, cols);
    var out := OutCols(rules, cols);
    PreexistingTargetsCollide(rules, cols);
    if |out| > |valid| {
      var j :| 0 <= j < |valid| && out[..|valid|][j] == out[|valid|];
      assert out[j] == out[|valid|];
    }
  }

  /** With distinct output labels nothing follows the renamed rule keys:
      the output columns are the applied rules' targets, in rule order. */
  lemma DistinctOutCols(rules: Rules, cols: seq<string>)
    requires DistinctKeys(rules) && Distinct(OutCols(rules, cols))
    ensures OutCols(rules, cols) == TargetsOf(ValidRules(rules, cols))
  {
    var valid := ValidRules(rules, cols);
    var out := OutCols(rules, cols);
    RenamesHead(rules, cols);
    PreexistingTargetsCollide(rules, cols);
    TailBreaksDistinct(rules, cols);
    assert out == TargetsOf(valid);
  }

  /** The cells after `_apply_renaming`: each applied rule's target column
      holds the cells of its key column. */
  lemma RenamedCells(t: Table, rules: Rules, i: nat)
    requires Valid(t) && DistinctKeys(rules) && Distinct(OutCols(rules, t.cols)) && i < |t.rows|
    ensures var valid := ValidRules(rules, t.cols);
            var r := ApplyRenaming(t, rules);
            && r.cols == TargetsOf(valid)
            && forall k :: 0 <= k < |valid| ==>
                 valid[k].key in t.cols && r.rows[i][valid[k].target] == t.rows[i][valid[k].key]
  {
    var valid := ValidRules(rules, t.cols);
    var ren := Renames(rules, t.cols);
    RenamesHead(rules, t.cols);
    ValidRulesInOrder(rules, t.cols);
    DistinctOutCols(rules, t.cols);
    forall k | 0 <= k < |valid| ensures valid[k].key in t.cols {
      assert valid[k] in valid;
    }
  }

  /** `not_found_keys`: the rule keys that are not columns. */
  function NotFound(rules: Rules, cols: seq<string>): set<string>
  {
    set k | k in KeysOf(rules) && k !in cols
  }

  /** Every rule key is either applied or reported as not found, never both. */
  lemma UnappliedPartition(rules: Rules, cols: seq<string>, k: string)
    requires DistinctKeys(rules)
    ensures k in NotFound(rules, cols) ==> HasKey(rules, k) && k !in cols
    ensures HasKey(rules, k) ==> (k in NotFound(rules, cols) <==> !HasKey(ValidRules(rules, cols), k))
  {
    var valid := ValidRules(rules, cols);
    ValidRulesInOrder(rules, cols);
    HasKeyIn(rules, k);
    if HasKey(rules, k) {
      var i :| 0 <= i < |rules| && rules[i].key == k;
      if k in cols {
        assert rules[i] in valid;
        var j :| 0 <= j < |valid| && valid[j] == rules[i];
      }
      if HasKey(valid, k) {
        var j :| 0 <= j < |valid| && valid[j].key == k;
        assert valid[j] in valid;
      }
    }
  }

  // ---------------------------------------------------------------------------
  // SelectAndRenameColumnCB

  /** What the model needs before renaming a group table: the output labels
      come out distinct (pandas would accept a duplicate label). */
  predicate RenameOk(t: Table, rules: Rules)
  {
    Valid(t) && DistinctKeys(rules) && (rules != [] ==> Distinct(OutCols(rules, t.cols)))
  }

  /** One group of `SelectAndRenameColumnCB.__call__`: a group without rules
      is left alone; otherwise it keeps exactly the columns some rule names,
      in rule order, under their new names. */
  function SelectRenameTable(t: Table, rules: Rules): (r: Table)
    requires RenameOk(t, rules)
    ensures Valid(r) && |r.rows| == |t.rows|
    ensures rules == [] ==> r == t
    ensures rules != [] ==> r.cols == TargetsOf(ValidRules(rules, t.cols))
  {
    if rules == [] then t
    else
      DistinctOutCols(rules, t.cols);
      ApplyRenaming(t, rules)
  }

  function SelectRenameOf(rr: seq<GroupRules>): (string, Table) --> Table
  {
    (g: string, t: Table) requires RenameOk(t, GroupRulesOf(rr, g)) => SelectRenameTable(t, GroupRulesOf(rr, g))
  }

  function SelectRenameAll(dfs: map<string, Table>, rr: seq<GroupRules>): (r: map<string, Table>)
    requires forall g :: g in dfs ==> RenameOk(dfs[g], GroupRulesOf(rr, g))
    ensures r.Keys == dfs.Keys && forall g :: g in r ==> Valid(r[g])
  {
    MapGroupsSpec(dfs, SelectRenameOf(rr))
  }

  /** The keys reported as not applied, per group that has rules. */
  function Unapplied(dfs: map<string, Table>, rr: seq<GroupRules>): (r: map<string, set<string>>)
    ensures forall g :: g in r <==> g in dfs && GroupRulesOf(rr, g) != []
  {
    map g | g in dfs && GroupRulesOf(rr, g) != [] :: NotFound(GroupRulesOf(rr, g), dfs[g].cols)
  }

  /** `SelectAndRenameColumnCB.__call__`. When fetching the rules fails
      nothing changes; otherwise every group with rules is selected and
      renamed, and the returned map holds the keys the verbose mode prints. */
  method SelectAndRenameColumnCB(tfm: Transformer, fnRenamingRules: string -> Result<seq<GroupRules>>, encodingType: string)
    returns (unapplied: map<string, set<string>>)
    requires tfm.Valid()
    requires var fetched := fnRenamingRules(encodingType);
             fetched.Ok? ==> AllDistinct(fetched.value) &&
                             forall g :: g in tfm.dfs ==> Distinct(OutCols(GroupRulesOf(fetched.value, g), tfm.dfs[g].cols)) || GroupRulesOf(fetched.value, g) == []
    modifies tfm`dfs
    ensures tfm.Valid()
    ensures var fetched := fnRenamingRules(encodingType);
            && (fetched.Err? ==> tfm.dfs == old(tfm.dfs) && unapplied == map[])
            && (fetched.Ok? ==> tfm.dfs == SelectRenameAll(old(tfm.dfs), fetched.value) &&
                                unapplied == Unapplied(old(tfm.dfs), fetched.value))
  {
    var fetched := fnRenamingRules(encodingType);
    if fetched.Err? {
      return map[];
    }
    var rr := fetched.value;
    unapplied := Unapplied(tfm.dfs, rr);
    MapGroups(tfm, SelectRenameOf(rr));
  }

  // ---------------------------------------------------------------------------
  // Which columns survive the selection

  /** An entry of the merged group rules comes from one of the entries. */
  lemma {:induction false} MergeEntries(rr: seq<GroupRules>, group: string, acc: Rules, x: Rule)
    requires x in MergeRules(rr, group, acc)
    ensures x in acc || exists j :: 0 <= j < |rr| && x in rr[j].rules
    decreases |rr|
  {
    if rr != [] {
      var acc1 := if Contains(rr[0].group, group) then Update(acc, rr[0].rules) else acc;
      MergeEntries(rr[1..], group, acc1, x);
      if x in acc1 && Contains(rr[0].group, group) {
        UpdateEntries(acc, rr[0].rules, x);
      }
      if exists j :: 0 <= j < |rr[1..]| && x in rr[1..][j].rules {
        var j :| 0 <= j < |rr[1..]| && x in rr[1..][j].rules;
        assert rr[1..][j] == rr[j + 1];
      }
    }
  }

  /** No rule of any entry renames a column to `c`. */
  predicate NoTarget(rr: seq<GroupRules>, c: string)
  {
    forall j, x :: 0 <= j < |rr| && x in rr[j].rules ==> x.target != c
  }

  /** A label no rule produces never survives the selection of a group that
      has rules, whatever the table held. */
  lemma UntargetedColumnDropped(rr: seq<GroupRules>, g: string, t: Table, c: string)
    requires NoTarget(rr, c) && RenameOk(t, GroupRulesOf(rr, g)) && GroupRulesOf(rr, g) != []
    ensures c !in SelectRenameTable(t, GroupRulesOf(rr, g)).cols
  {
    var rules := GroupRulesOf(rr, g);
    var valid := ValidRules(rules, t.cols);
    ValidRulesInOrder(rules, t.cols);
    if c in TargetsOf(valid) {
      var k :| 0 <= k < |valid| && TargetsOf(valid)[k] == c;
      assert valid[k] in valid;
      MergeEntries(rr, g, [], valid[k]);
    }
  }

  /** A column that a rule maps to itself survives the selection of a group
      that has rules, every cell unchanged. */
  lemma IdentityRuleKeepsColumn(t: Table, rules: Rules, c: string)
    requires RenameOk(t, rules) && rules != [] && Lookup(rules, c) == Some(c) && c in t.cols
    ensures var r := SelectRenameTable(t, rules);
            c in r.cols && forall i :: 0 <= i < |t.rows| ==> c in r.rows[i] && r.rows[i][c] == t.rows[i][c]
  {
    var valid := ValidRules(rules, t.cols);
    var r := SelectRenameTable(t, rules);
    ValidRulesInOrder(rules, t.cols);
    assert Rule(c, c) in valid;
    var k :| 0 <= k < |valid| && valid[k] == Rule(c, c);
    assert TargetsOf(valid)[k] == c;
    forall i | 0 <= i < |t.rows| ensures c in r.rows[i] && r.rows[i][c] == t.rows[i][c] {
      RenamedCells(t, rules, i);
    }
  }

  // ---------------------------------------------------------------------------
  // The OpenRefine rules and the measurement note

  /** No entry of `d` renames a column to `c`. */
  predicate Avoids(d: Rules, c: string)
  {
    forall x :: x in d ==> x.target != c
  }

  lemma UpdateAvoids(d: Rules, e: Rules, c: string)
    requires Avoids(d, c) && Avoids(e, c)
    ensures Avoids(Update(d, e), c)
  {
    forall x | x in Update(d, e) ensures x.target != c {
      UpdateEntries(d, e, x);
    }
  }

  lemma RenamingRulesEntry(v: NcNames, enc: string, j: nat)
    requires KnownEncoding(enc) && j < 3
    ensures var e := RenamingRules(v, enc).value[j];
            e == SampleTypeRules(CommonRules(v, enc), SpecificRules(v, enc).value, e.group)
  {
  }

  /** A label that neither the common nor any specific rules produce is
      produced by no entry. */
  lemma NeverTargets(v: NcNames, enc: string, c: string)
    requires KnownEncoding(enc) && Avoids(CommonRules(v, enc), c)
    requires forall g :: Avoids(SpecificFor(SpecificRules(v, enc).value, g), c)
    ensures NoTarget(RenamingRules(v, enc).value, c)
  {
    var rr := RenamingRules(v, enc).value;
    forall j | 0 <= j < |rr| ensures Avoids(rr[j].rules, c) {
      RenamingRulesEntry(v, enc, j);
      assert rr[j].rules == Update(CommonRules(v, enc), SpecificFor(SpecificRules(v, enc).value, rr[j].group));
      UpdateAvoids(CommonRules(v, enc), SpecificFor(SpecificRules(v, enc).value, rr[j].group), c);
    }
  }

  lemma OpenRefineBaseTargets(v: NcNames)
    ensures Avoids(BaseCommonRules(v, "openrefine"), "measurementnote")
  {
  }

  lemma OpenRefineExtraTargets(v: NcNames)
    ensures Avoids(ExtraCommonRules(v, "openrefine"), "measurementnote")
  {
  }

  lemma OpenRefineSpecificTargets(v: NcNames, g: string)
    ensures Avoids(SpecificFor(SpecificRules(v, "openrefine").value, g), "measurementnote")
  {
    var spec := SpecificRules(v, "openrefine").value;
    if g == "biota" {
      assert SpecificFor(spec, g) == spec["biota"];
    } else if g == "sediment" {
      assert SpecificFor(spec, g) == spec["sediment"];
    }
  }

  /** No OpenRefine rule, in any entry, produces a column `measurementnote`. */
  lemma OpenRefineNeverTargetsMeasurementNote(v: NcNames)
    ensures NoTarget(RenamingRules(v, "openrefine").value, "measurementnote")
  {
    OpenRefineBaseTargets(v);
    OpenRefineExtraTargets(v);
    UpdateAvoids(BaseCommonRules(v, "openrefine"), ExtraCommonRules(v, "openrefine"), "measurementnote");
    forall g ensures Avoids(SpecificFor(SpecificRules(v, "openrefine").value, g), "measurementnote") {
      OpenRefineSpecificTargets(v, g);
    }
    NeverTargets(v, "openrefine", "measurementnote");
  }

  lemma OpenRefineSpecificLacksMeasureNote(v: NcNames, g: string)
    ensures !HasKey(SpecificFor(SpecificRules(v, "openrefine").value, g), "measurenote")
  {
  }

  lemma OpenRefineCommonMeasureNote(v: NcNames)
    ensures Lookup(CommonRules(v, "openrefine"), "measurenote") == Some("measurenote")
  {
    var extra := ExtraCommonRules(v, "openrefine");
    assert extra[6] == Rule("measurenote", "measurenote");
    ExtraCommonRulesDistinct(v, "openrefine");
    UpdateLookup(BaseCommonRules(v, "openrefine"), extra, "measurenote");
    LookupAt(extra, 6);
  }

  /** Every OpenRefine entry maps `measurenote` to itself. */
  lemma OpenRefineKeepsMeasureNote(v: NcNames, j: nat)
    requires j < 3
    ensures Lookup(RenamingRules(v, "openrefine").value[j].rules, "measurenote") == Some("measurenote")
  {
    RenamingRulesOverride(v, "openrefine", j, "measurenote");
    OpenRefineSpecificLacksMeasureNote(v, RenamingRules(v, "openrefine").value[j].group);
    OpenRefineCommonMeasureNote(v);
  }
  // ---------------------------------------------------------------------------
  // Output labels, whatever the table holds

  /** A label no rule produces is not among the labels `_apply_renaming`
      outputs, whatever columns the table has. */
  lemma UntargetedNotOutput(rr: seq<GroupRules>, g: string, cols: seq<string>, c: string)
    requires NoTarget(rr, c) && AllDistinct(rr)
    ensures c !in OutCols(GroupRulesOf(rr, g), cols)
  {
    var rules := GroupRulesOf(rr, g);
    var valid := ValidRules(rules, cols);
    ValidRulesInOrder(rules, cols);
    OutColsExact(rules, cols, c);
    if c in TargetsOf(valid) {
      var k :| 0 <= k < |valid| && TargetsOf(valid)[k] == c;
      assert valid[k] in valid;
      MergeEntries(rr, g, [], valid[k]);
    }
  }

  /** A column that a rule maps to itself is among the output labels. */
  lemma IdentityRuleOutput(rules: Rules, cols: seq<string>, c: string)
    requires DistinctKeys(rules) && Lookup(rules, c) == Some(c) && c in cols
    ensures c in OutCols(rules, cols)
  {
    var valid := ValidRules(rules, cols);
    ValidRulesInOrder(rules, cols);
    OutColsExact(rules, cols, c);
    assert Rule(c, c) in valid;
    var k :| 0 <= k < |valid| && valid[k] == Rule(c, c);
    assert TargetsOf(valid)[k] == c;
  }

  /** The target of an applied rule is output among the renamed rule keys. */
  lemma AppliedTargetOutput(rules: Rules, cols: seq<string>, k: string, c: string) returns (a: nat)
    requires DistinctKeys(rules) && Lookup(rules, k) == Some(c) && k in cols
    ensures a < |ValidRules(rules, cols)| && a < |OutCols(rules, cols)|
    ensures ValidRules(rules, cols)[a] == Rule(k, c) && OutCols(rules, cols)[a] == c
  {
    var valid := ValidRules(rules, cols);
    ValidRulesInOrder(rules, cols);
    assert Rule(k, c) in valid;
    a :| 0 <= a < |valid| && valid[a] == Rule(k, c);
    RenamesHead(rules, cols);
    assert Renames(rules, cols)[a] == Rule(k, c);
  }

  /** An existing column that an applied rule targets, and that is no rule
      key, is output again after the renamed rule keys. */
  lemma TargetKeptInTail(rules: Rules, cols: seq<string>, c: string) returns (b: nat)
    requires DistinctKeys(rules) && c in cols && c in TargetsOf(ValidRules(rules, cols)) && !HasKey(rules, c)
    ensures |ValidRules(rules, cols)| <= b < |OutCols(rules, cols)| && OutCols(rules, cols)[b] == c
  {
    var valid := ValidRules(rules, cols);
    assert !HasKey(valid, c) by {
      FilterMembers(rules, KeyIn(cols));
      forall i | 0 <= i < |valid| ensures valid[i].key != c {
        assert valid[i] in valid;
      }
    }
    KeptSplit(rules, cols);
    var m :| 0 <= m < |KeptTail(rules, cols)| && KeptTail(rules, cols)[m] == c;
    b := |valid| + m;
    RenamesTail(rules, cols);
    assert Renames(rules, cols)[b].key == c;
  }

  /** An existing column that a rule targets, while no rule has it as key,
      is output twice: once for the renamed rule key and once kept under
      its own name. */
  lemma PreexistingTargetTwice(rules: Rules, cols: seq<string>, k: string, c: string)
    requires DistinctKeys(rules) && Lookup(rules, k) == Some(c) && k in cols && c in cols && !HasKey(rules, c)
    ensures var out := OutCols(rules, cols);
            exists a, b :: 0 <= a < b < |out| && out[a] == c && out[b] == c
  {
    var a := AppliedTargetOutput(rules, cols, k, c);
    var b := TargetKeptInTail(rules, cols, c);
    assert a < b;
  }

  // ---------------------------------------------------------------------------
  // `_apply_renaming` without the target-named columns

  /** The applied rules keep the rule order, so distinct targets stay distinct. */
  lemma ValidTargetsDistinct(rules: Rules, cols: seq<string>)
    requires Distinct(TargetsOf(rules))
    ensures Distinct(TargetsOf(ValidRules(rules, cols)))
    ensures forall k :: 0 <= k < |ValidRules(rules, cols)| ==> ValidRules(rules, cols)[k].key in cols
  {
    var valid := ValidRules(rules, cols);
    var idx := KeptIndices(rules, KeyIn(cols));
    FilterKeepsOrder(rules, KeyIn(cols));
    forall a, b | 0 <= a < b < |valid| ensures valid[a].target != valid[b].target {
      assert idx[a] < idx[b];
      assert TargetsOf(rules)[idx[a]] != TargetsOf(rules)[idx[b]];
    }
    forall k | 0 <= k < |valid| ensures valid[k].key in cols {
      assert valid[k] in valid;
    }
  }

  /** `_apply_renaming` as evidently intended: the existing rule keys, each
      under its new name, and no other column. With rule targets that are
      distinct, the output labels are distinct for every table. */
  function ApplyRenamingCorrected(t: Table, rules: Rules): (r: Table)
    requires Valid(t) && Distinct(TargetsOf(rules))
    ensures Valid(r) && r.cols == TargetsOf(ValidRules(rules, t.cols)) && |r.rows| == |t.rows|
    ensures var valid := ValidRules(rules, t.cols);
            forall i, k :: 0 <= i < |t.rows| && 0 <= k < |valid| ==>
              valid[k].key in t.cols && r.rows[i][valid[k].target] == t.rows[i][valid[k].key]
  {
    var valid := ValidRules(rules, t.cols);
    ValidTargetsDistinct(rules, t.cols);
    Table(TargetsOf(valid), seq(|t.rows|, i requires 0 <= i < |t.rows| => RenameRow(valid, t.rows[i])))
  }

  /** Where the as-written renaming yields distinct labels, the corrected
      one gives the same table. */
  lemma ApplyRenamingCorrectedAgrees(t: Table, rules: Rules)
    requires Valid(t) && DistinctKeys(rules) && Distinct(TargetsOf(rules)) && Distinct(OutCols(rules, t.cols))
    ensures ApplyRenamingCorrected(t, rules) == ApplyRenaming(t, rules)
  {
    var valid := ValidRules(rules, t.cols);
    var ren := Renames(rules, t.cols);
    DistinctOutCols(rules, t.cols);
    RenamesHead(rules, t.cols);
    assert |ren| == |valid|;
    assert ren == valid;
  }

  /** A column that a rule maps to itself survives the corrected
      renaming, every cell unchanged. */
  lemma IdentityRuleKeepsColumnCorrected(t: Table, rules: Rules, c: string)
    requires Valid(t) && DistinctKeys(rules) && Distinct(TargetsOf(rules)) && Lookup(rules, c) == Some(c) && c in t.cols
    ensures var r := ApplyRenamingCorrected(t, rules);
            c in r.cols && forall i :: 0 <= i < |t.rows| ==> r.rows[i][c] == t.rows[i][c]
  {
    var valid := ValidRules(rules, t.cols);
    var a := AppliedTargetOutput(rules, t.cols, c, c);
    assert TargetsOf(valid)[a] == c;
  }

  /** One group of the corrected `SelectAndRenameColumnCB`. */
  function SelectRenameCorrected(t: Table, rules: Rules): (r: Table)
    requires Valid(t) && Distinct(TargetsOf(rules))
    ensures Valid(r) && |r.rows| == |t.rows|
    ensures rules == [] ==> r == t
    ensures rules != [] ==> r.cols == TargetsOf(ValidRules(rules, t.cols))
  {
    if rules == [] then t else ApplyRenamingCorrected(t, rules)
  }

  function SelectRenameCorrectedOf(rr: seq<GroupRules>): (string, Table) --> Table
  {
    (g: string, t: Table) requires Valid(t) && Distinct(TargetsOf(GroupRulesOf(rr, g))) =>
      SelectRenameCorrected(t, GroupRulesOf(rr, g))
  }

  function SelectRenameCorrectedAll(dfs: map<string, Table>, rr: seq<GroupRules>): (r: map<string, Table>)
    requires forall g :: g in dfs ==> Valid(dfs[g]) && Distinct(TargetsOf(GroupRulesOf(rr, g)))
    ensures r.Keys == dfs.Keys && forall g :: g in r ==> Valid(r[g])
  {
    MapGroupsSpec(dfs, SelectRenameCorrectedOf(rr))
  }

  /** `SelectAndRenameColumnCB` with the corrected `_apply_renaming`: it
      needs distinct targets of the rules only, not of the table's labels. */
  method SelectAndRenameColumnCorrectedCB(tfm: Transformer, fnRenamingRules: string -> Result<seq<GroupRules>>, encodingType: string)
    returns (unapplied: map<string, set<string>>)
    requires tfm.Valid()
    requires var fetched := fnRenamingRules(encodingType);
             fetched.Ok? ==> forall g :: g in tfm.dfs ==> Distinct(TargetsOf(GroupRulesOf(fetched.value, g)))
    modifies tfm`dfs
    ensures tfm.Valid()
    ensures var fetched := fnRenamingRules(encodingType);
            && (fetched.Err? ==> tfm.dfs == old(tfm.dfs) && unapplied == map[])
            && (fetched.Ok? ==> tfm.dfs == SelectRenameCorrectedAll(old(tfm.dfs), fetched.value) &&
                                unapplied == Unapplied(old(tfm.dfs), fetched.value))
  {
    var fetched := fnRenamingRules(encodingType);
    if fetched.Err? {
      return map[];
    }
    var rr := fetched.value;
    unapplied := Unapplied(tfm.dfs, rr);
    MapGroups(tfm, SelectRenameCorrectedOf(rr));
  }

  // ---------------------------------------------------------------------------
  // The OpenRefine rules: labels and `time`

  /** Appending entries with fresh, distinct targets keeps targets distinct. */
  lemma DistinctTargetsAppend(a: Rules, b: Rules)
    requires Distinct(TargetsOf(a)) && Distinct(TargetsOf(b))
    requires forall i, j :: 0 <= i < |a| && 0 <= j < |b| ==> a[i].target != b[j].target
    ensures Distinct(TargetsOf(a + b))
  {
    forall i, j | 0 <= i < j < |a + b| ensures (a + b)[i].target != (a + b)[j].target {
      if j < |a| {
        assert TargetsOf(a)[i] != TargetsOf(a)[j];
      } else if i >= |a| {
        assert TargetsOf(b)[i - |a|] != TargetsOf(b)[j - |a|];
      }
    }
  }

  /** Entries of `d` and `e` share neither keys nor targets. */
  predicate Apart(d: Rules, e: Rules)
  {
    forall i, j :: 0 <= i < |d| && 0 <= j < |e| ==> d[i].key != e[j].key && d[i].target != e[j].target
  }

  /** Updating with entries apart from `d` appends them, and distinct
      targets stay distinct. */
  lemma UpdateApart(d: Rules, e: Rules)
    requires DistinctKeys(e) && Apart(d, e)
    ensures Update(d, e) == d + e
    ensures Distinct(TargetsOf(d)) && Distinct(TargetsOf(e)) ==> Distinct(TargetsOf(d + e))
  {
    UpdateFresh(d, e);
    if Distinct(TargetsOf(d)) && Distinct(TargetsOf(e)) {
      DistinctTargetsAppend(d, e);
    }
  }

  lemma OpenRefineBaseExtraKeysApart(v: NcNames)
    ensures forall i, j :: 0 <= i < |BaseCommonRules(v, "openrefine")| && 0 <= j < |ExtraCommonRules(v, "openrefine")| ==>
              BaseCommonRules(v, "openrefine")[i].key != ExtraCommonRules(v, "openrefine")[j].key
  {
  }

  lemma OpenRefineBaseExtraTargetsApart(v: NcNames)
    ensures forall i, j :: 0 <= i < |BaseCommonRules(v, "openrefine")| && 0 <= j < |ExtraCommonRules(v, "openrefine")| ==>
              BaseCommonRules(v, "openrefine")[i].target != ExtraCommonRules(v, "openrefine")[j].target
  {
  }

  lemma OpenRefineCommonTargets(v: NcNames)
    ensures Distinct(TargetsOf(BaseCommonRules(v, "openrefine")))
    ensures Distinct(TargetsOf(ExtraCommonRules(v, "openrefine")))
  {
  }

  /** The OpenRefine common rules are the base dict followed by the added
      entries, and their targets are distinct. */
  lemma OpenRefineCommonAppends(v: NcNames)
    ensures CommonRules(v, "openrefine") == BaseCommonRules(v, "openrefine") + ExtraCommonRules(v, "openrefine")
    ensures Distinct(TargetsOf(CommonRules(v, "openrefine")))
  {
    ExtraCommonRulesDistinct(v, "openrefine");
    OpenRefineBaseExtraKeysApart(v);
    OpenRefineBaseExtraTargetsApart(v);
    OpenRefineCommonTargets(v);
    UpdateApart(BaseCommonRules(v, "openrefine"), ExtraCommonRules(v, "openrefine"));
  }

  lemma ApartAppend(a: Rules, b: Rules, e: Rules)
    requires Apart(a, e) && Apart(b, e)
    ensures Apart(a + b, e)
  {
    forall i, j | 0 <= i < |a + b| && 0 <= j < |e|
      ensures (a + b)[i].key != e[j].key && (a + b)[i].target != e[j].target
    {
      if i >= |a| {
        assert (a + b)[i] == b[i - |a|];
      }
    }
  }

  /** The OpenRefine biota rules. */
  function OpenRefineBiota(v: NcNames): Rules
  {
    SpecificRules(v, "openrefine").value["biota"]
  }

  /** The OpenRefine sediment rules. */
  function OpenRefineSediment(v: NcNames): Rules
  {
    SpecificRules(v, "openrefine").value["sediment"]
  }

  lemma OpenRefineBiotaBaseApart(v: NcNames)
    ensures Apart(BaseCommonRules(v, "openrefine"), OpenRefineBiota(v))
  {
  }

  lemma OpenRefineBiotaExtraApart(v: NcNames)
    ensures Apart(ExtraCommonRules(v, "openrefine"), OpenRefineBiota(v)) && Distinct(TargetsOf(OpenRefineBiota(v)))
  {
  }

  lemma OpenRefineSedimentApart(v: NcNames)
    ensures Apart(BaseCommonRules(v, "openrefine"), OpenRefineSediment(v))
    ensures Apart(ExtraCommonRules(v, "openrefine"), OpenRefineSediment(v)) && Distinct(TargetsOf(OpenRefineSediment(v)))
  {
  }

  /** The specific OpenRefine rules of any group add fresh keys and targets
      to the common ones. */
  lemma OpenRefineSpecificApart(v: NcNames, g: string)
    ensures var spec := SpecificFor(SpecificRules(v, "openrefine").value, g);
            Apart(CommonRules(v, "openrefine"), spec) && Distinct(TargetsOf(spec))
  {
    var spec := SpecificRules(v, "openrefine").value;
    var base := BaseCommonRules(v, "openrefine");
    var extra := ExtraCommonRules(v, "openrefine");
    OpenRefineCommonAppends(v);
    if g == "biota" {
      assert SpecificFor(spec, g) == OpenRefineBiota(v);
      OpenRefineBiotaBaseApart(v);
      OpenRefineBiotaExtraApart(v);
      ApartAppend(base, extra, OpenRefineBiota(v));
    } else if g == "sediment" {
      assert SpecificFor(spec, g) == OpenRefineSediment(v);
      OpenRefineSedimentApart(v);
      ApartAppend(base, extra, OpenRefineSediment(v));
    } else {
      assert SpecificFor(spec, g) == [];
    }
  }

  /** Each OpenRefine entry is the common rules followed by its specific
      ones, and its targets are distinct. */
  lemma OpenRefineTargetsDistinct(v: NcNames, j: nat)
    requires j < 3
    ensures var e := RenamingRules(v, "openrefine").value[j];
            && e.rules == CommonRules(v, "openrefine") + SpecificFor(SpecificRules(v, "openrefine").value, e.group)
            && Distinct(TargetsOf(e.rules))
  {
    var e := RenamingRules(v, "openrefine").value[j];
    var spec := SpecificFor(SpecificRules(v, "openrefine").value, e.group);
    RenamingRulesEntry(v, "openrefine", j);
    OpenRefineCommonAppends(v);
    OpenRefineSpecificApart(v, e.group);
    OpenRefineSpecificDistinct(v, e.group);
    UpdateApart(CommonRules(v, "openrefine"), spec);
  }

  lemma OpenRefineSpecificLacksTime(v: NcNames, g: string)
    ensures !HasKey(SpecificFor(SpecificRules(v, "openrefine").value, g), "time")
    ensures !HasKey(SpecificFor(SpecificRules(v, "openrefine").value, g), "begperiod")
  {
  }

  lemma OpenRefineBaseTime(v: NcNames)
    ensures BaseCommonRules(v, "openrefine")[3] == Rule("time", "begperiod")
    ensures !HasKey(BaseCommonRules(v, "openrefine"), "begperiod")
    ensures !HasKey(ExtraCommonRules(v, "openrefine"), "time")
    ensures !HasKey(ExtraCommonRules(v, "openrefine"), "begperiod")
  {
  }

  lemma OpenRefineCommonTime(v: NcNames)
    ensures Lookup(CommonRules(v, "openrefine"), "time") == Some("begperiod")
    ensures !HasKey(CommonRules(v, "openrefine"), "begperiod")
  {
    var base := BaseCommonRules(v, "openrefine");
    var extra := ExtraCommonRules(v, "openrefine");
    OpenRefineBaseTime(v);
    ExtraCommonRulesDistinct(v, "openrefine");
    BaseCommonRulesDistinct(v, "openrefine");
    UpdateLookup(base, extra, "time");
    UpdateLookup(base, extra, "begperiod");
    LookupAt(base, 3);
  }

  /** Every OpenRefine entry renames `time` to `begperiod`, and no entry has
      a key `begperiod`. */
  lemma OpenRefineTimeRule(v: NcNames, j: nat)
    requires j < 3
    ensures var rules := RenamingRules(v, "openrefine").value[j].rules;
            Lookup(rules, "time") == Some("begperiod") && !HasKey(rules, "begperiod")
  {
    RenamingRulesOverride(v, "openrefine", j, "time");
    RenamingRulesOverride(v, "openrefine", j, "begperiod");
    OpenRefineSpecificLacksTime(v, RenamingRules(v, "openrefine").value[j].group);
    OpenRefineCommonTime(v);
  }
}
