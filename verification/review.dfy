/** review_changes.py: the comparison of the production registry with the
    staging registry that a maintainer reads before a release. The files
    are read from the same path-to-content store release.py works on; the
    printed report is represented by the values it is printed from. */
module Review {
  import opened Wrappers
  import opened Text
  import opened JsonValues
  import opened Keyed
  import opened Sets
  import Aerodromes

  const DefaultProductionPath: string := "aerodromes.json"
  const DefaultStagingPath: string := "aerodromes-staging.json"
  const AerodromesField: string := "aerodromes"
  const IcaoField: string := "icao"
  /** More removals than this earn a warning. */
  const RemovalWarningThreshold: nat := 100
  /** More additions than this earn a warning. */
  const AdditionWarningThreshold: nat := 1000

  // ---------------------------------------------------------------------
  // Loading and keying

  /** load_json: a missing file and a file that does not parse both read
      as the empty dict. None stands for the UnicodeDecodeError of a file
      that is not UTF-8, which neither handler catches. */
  function LoadJson(files: map<string, FileContent>, path: string): (v: Option<Json>)
    ensures v.None? <==> path in files && files[path].Undecodable?
    ensures path !in files ==> v == Some(JObj(map[]))
    ensures path in files && files[path].Parsed? ==> v == Some(files[path].doc)
    ensures path in files && files[path].Unparsable? ==> v == Some(JObj(map[]))
  {
    if path !in files then Some(JObj(map[]))
    else
      match files[path]
      case Parsed(doc) => Some(doc)
      case Unparsable => Some(JObj(map[]))
      case Undecodable => None
  }

  /** `a['icao']` as a dict key: `a` must be a dict holding `icao`, and
      the value must be hashable (not a list or a dict). */
  function IcaoOf(a: Json): Option<Json> {
    if a.JObj? && IcaoField in a.fields && !a.fields[IcaoField].JArr? && !a.fields[IcaoField].JObj?
    then Some(a.fields[IcaoField])
    else None
  }

  /** What one record contributes to the ICAO-keyed dict. */
  function KeyedRecord(a: Json): Option<(Json, Json)> {
    match IcaoOf(a)
    case None => None
    case Some(k) => Some((k, a))
  }

  /** get_aerodrome_dict. None stands for the TypeError or KeyError the
      comprehension, the `in` test or the subscript raises. A falsy
      document gives the empty dict; a non-empty dict comes only from a
      dict document, and every record in it sits under its own `icao`. */
  function GetAerodromeDict(data: Json): (d: Option<map<Json, Json>>)
    ensures !Truthy(data) ==> d == Some(map[])
    ensures d.Some? && d.value != map[] ==> data.JObj? && AerodromesField in data.fields
    ensures d.Some? ==> forall k :: k in d.value ==> IcaoOf(d.value[k]) == Some(k)
  {
    if !Truthy(data) then Some(map[])
    else
      match Contains(data, AerodromesField)
      case None => None
      case Some(present) =>
        if !present then Some(map[])
        else if !data.JObj? then None
        else
          match RecordsOf(data.fields[AerodromesField])
          case None => None
          case Some(items) =>
            if forall i :: 0 <= i < |items| ==> KeyedRecord(items[i]).Some?
            then KeyedByOwnIcao(items); Some(LastWins(items, KeyedRecord))
            else None
  }

  /** An empty document, or one without an `aerodromes` entry, gives the
      empty dict. */
  lemma EmptyOrMissingGivesEmpty(data: Json)
    requires !Truthy(data) || Contains(data, AerodromesField) == Some(false)
    ensures GetAerodromeDict(data) == Some(map[])
  {
  }

  /** A dict holding a list of records: the dict is defined exactly when
      every record has a hashable `icao`; then a code is a key exactly when
      some record carries it, and the record kept under it is the last one
      that carries it. */
  lemma LastDuplicateWins(fields: map<string, Json>, items: seq<Json>, k: Json)
    requires AerodromesField in fields && fields[AerodromesField] == JArr(items)
    ensures GetAerodromeDict(JObj(fields)).Some? <==> forall i :: 0 <= i < |items| ==> IcaoOf(items[i]).Some?
    ensures GetAerodromeDict(JObj(fields)).Some? ==>
      (k in GetAerodromeDict(JObj(fields)).value <==> exists i :: 0 <= i < |items| && IcaoOf(items[i]) == Some(k))
    ensures GetAerodromeDict(JObj(fields)).Some? && k in GetAerodromeDict(JObj(fields)).value ==>
      exists j :: 0 <= j < |items| && items[j] == GetAerodromeDict(JObj(fields)).value[k] && IcaoOf(items[j]) == Some(k) &&
        forall i :: j < i < |items| ==> IcaoOf(items[i]) != Some(k)
  {
    var data := JObj(fields);
    assert Truthy(data);
    var m := LastWins(items, KeyedRecord);
    LastWinsKeys(items, KeyedRecord, k);
    if exists i :: 0 <= i < |items| && IcaoOf(items[i]) == Some(k) {
      var i :| 0 <= i < |items| && IcaoOf(items[i]) == Some(k);
      assert YieldsKey(KeyedRecord(items[i]), k);
    }
    if k in m {
      LastWinsValue(items, KeyedRecord, k);
      var j :| 0 <= j < |items| && KeyedRecord(items[j]) == Some((k, m[k]))
        && forall i :: j < i < |items| ==> !YieldsKey(KeyedRecord(items[i]), k);
      forall i | j < i < |items| ensures IcaoOf(items[i]) != Some(k) {
        assert !YieldsKey(KeyedRecord(items[i]), k);
      }
    }
  }

  /** Every record in the dict sits under its own `icao` value. */
  lemma {:induction false} KeyedByOwnIcao(items: seq<Json>)
    ensures forall k :: k in LastWins(items, KeyedRecord) ==> IcaoOf(LastWins(items, KeyedRecord)[k]) == Some(k)
  {
    if items != [] {
      KeyedByOwnIcao(items[..|items| - 1]);
    }
  }

  /** A registry document the sync step writes is keyed by exactly the
      codes of its records. */
  lemma RegistryDocumentKeys(d: Aerodromes.RegistryDoc, k: string)
    ensures GetAerodromeDict(Aerodromes.RegistryToJson(d)).Some?
    ensures JStr(k) in GetAerodromeDict(Aerodromes.RegistryToJson(d)).value <==>
      exists i :: 0 <= i < |d.aerodromes| && d.aerodromes[i].icao == k
  {
    var doc := Aerodromes.RegistryToJson(d);
    var items := doc.fields[AerodromesField].items;
    assert Truthy(doc);
    forall i | 0 <= i < |items| ensures IcaoOf(items[i]) == Some(JStr(d.aerodromes[i].icao)) {
      assert items[i] == Aerodromes.EntryToJson(d.aerodromes[i]);
    }
    LastDuplicateWins(doc.fields, items, JStr(k));
    if exists i :: 0 <= i < |items| && IcaoOf(items[i]) == Some(JStr(k)) {
      var i :| 0 <= i < |items| && IcaoOf(items[i]) == Some(JStr(k));
      assert d.aerodromes[i].icao == k;
    }
  }

  // ---------------------------------------------------------------------
  // The comparison

  /** Codes only staging has. */
  function NewIcaos(prod: map<Json, Json>, staging: map<Json, Json>): set<Json> {
    staging.Keys - prod.Keys
  }

  /** Codes only production has. */
  function RemovedIcaos(prod: map<Json, Json>, staging: map<Json, Json>): set<Json> {
    prod.Keys - staging.Keys
  }

  /** Codes both have, with records that differ. */
  function ChangedIcaos(prod: map<Json, Json>, staging: map<Json, Json>): set<Json> {
    set k | k in prod && k in staging && prod[k] != staging[k]
  }

  /** The figures of the summary and of the three change sections. */
  datatype Summary = Summary(
    prodCount: nat,
    stagingCount: nat,
    netChange: int,
    newIcaos: set<Json>,
    removedIcaos: set<Json>,
    changedIcaos: seq<Json>)

  /** The closing recommendation. */
  datatype Recommendation = Recommendation(
    totalChanges: nat,
    noChanges: bool,
    removalWarning: bool,
    additionWarning: bool)

  /** How compare_aerodromes ends: without staging data; with an error
      raised while reading a file that is not UTF-8 or while keying a
      document; or with the summary and, unless
      reading `last_updated` raised AttributeError on a document that is
      not a dict, the recommendation. */
  datatype Review =
    | NoStagingData
    | Crashed
    | Reviewed(summary: Summary, recommendation: Option<Recommendation>)

  /** The recommendation for the given numbers of new, removed and
      changed codes. */
  function Recommend(added: nat, removed: nat, changed: nat): (r: Recommendation)
    ensures r.totalChanges == added + removed + changed
    ensures r.noChanges <==> added == 0 && removed == 0 && changed == 0
    ensures r.removalWarning ==> !r.noChanges && removed > RemovalWarningThreshold
    ensures r.additionWarning ==> !r.noChanges && added > AdditionWarningThreshold
  {
    var total := added + removed + changed;
    Recommendation(total, total == 0,
                   total != 0 && removed > RemovalWarningThreshold,
                   total != 0 && added > AdditionWarningThreshold)
  }

  /** Warnings fire exactly past their thresholds. */
  lemma WarningThresholds(added: nat, removed: nat, changed: nat)
    ensures Recommend(added, removed, changed).removalWarning <==> removed > 100
    ensures Recommend(added, removed, changed).additionWarning <==> added > 1000
  {
  }

  /** No element of `xs` occurs twice. */
  predicate NoRepeats(xs: seq<Json>) {
    forall i, j :: 0 <= i < j < |xs| ==> xs[i] != xs[j]
  }

  /** The recommendation compare_aerodromes reaches for the two dicts. */
  function RecommendFor(prod: map<Json, Json>, staging: map<Json, Json>): Recommendation {
    Recommend(|NewIcaos(prod, staging)|, |RemovedIcaos(prod, staging)|, |ChangedIcaos(prod, staging)|)
  }

  /** The loop of compare_aerodromes over the common codes: the changed
      list holds each common code whose records differ, once, in the
      order the set happens to be visited. */
  method CollectChanged(prod: map<Json, Json>, staging: map<Json, Json>) returns (changed: seq<Json>)
    ensures NoRepeats(changed)
    ensures forall k :: k in changed <==> k in ChangedIcaos(prod, staging)
  {
    var common := prod.Keys * staging.Keys;
    changed := [];
    var remaining := common;
    while remaining != {}
      invariant remaining <= common
      invariant NoRepeats(changed)
      invariant forall k :: k in changed <==> k in common - remaining && prod[k] != staging[k]
      decreases |remaining|
    {
      var icao :| icao in remaining;
      if prod[icao] != staging[icao] {
        changed := changed + [icao];
      }
      remaining := remaining - {icao};
    }
  }

  /** The summary and change sections computed from the two dicts. */
  ghost predicate Summarizes(s: Summary, prod: map<Json, Json>, staging: map<Json, Json>) {
    && s.prodCount == |prod| && s.stagingCount == |staging|
    && s.netChange == |staging| - |prod|
    && s.newIcaos == NewIcaos(prod, staging)
    && s.removedIcaos == RemovedIcaos(prod, staging)
    && NoRepeats(s.changedIcaos)
    && (forall k :: k in s.changedIcaos <==> k in ChangedIcaos(prod, staging))
  }

  /** Lines 50-91 of compare_aerodromes: the key sets, the counts and the
      new, removed and changed codes. */
  method Summarize(prod: map<Json, Json>, staging: map<Json, Json>) returns (summary: Summary)
    ensures Summarizes(summary, prod, staging)
    ensures |summary.changedIcaos| == |ChangedIcaos(prod, staging)|
  {
    var newIcaos := staging.Keys - prod.Keys;
    var removedIcaos := prod.Keys - staging.Keys;
    var changed := CollectChanged(prod, staging);
    ChangedCount(changed, ChangedIcaos(prod, staging));
    summary := Summary(|prod|, |staging|, |staging| - |prod|, newIcaos, removedIcaos, changed);
  }

  /** compare_aerodromes. */
  method CompareAerodromes(files: map<string, FileContent>, prodPath: string, stagingPath: string)
    returns (review: Review)
    ensures LoadJson(files, prodPath).None? || LoadJson(files, stagingPath).None? ==> review.Crashed?
    ensures var prodData, stagingData := LoadJson(files, prodPath), LoadJson(files, stagingPath);
      review.NoStagingData? <==> prodData.Some? && stagingData.Some? && !Truthy(stagingData.value)
    ensures var prodData, stagingData := LoadJson(files, prodPath), LoadJson(files, stagingPath);
      prodData.Some? && stagingData.Some? ==>
        (review.Crashed? <==>
          Truthy(stagingData.value) &&
          (GetAerodromeDict(prodData.value).None? || GetAerodromeDict(stagingData.value).None?))
    ensures review.Reviewed? ==>
      LoadJson(files, prodPath).Some? && LoadJson(files, stagingPath).Some? &&
      var prodData, stagingData := LoadJson(files, prodPath).value, LoadJson(files, stagingPath).value;
      && GetAerodromeDict(prodData).Some? && GetAerodromeDict(stagingData).Some?
      && var prod, staging := GetAerodromeDict(prodData).value, GetAerodromeDict(stagingData).value;
      && Summarizes(review.summary, prod, staging)
      && review.recommendation ==
         (if prodData.JObj? && stagingData.JObj? then Some(RecommendFor(prod, staging)) else None)
  {
    var prodLoaded := LoadJson(files, prodPath);
    if prodLoaded.None? {
      return Crashed;
    }
    var stagingLoaded := LoadJson(files, stagingPath);
    if stagingLoaded.None? {
      return Crashed;
    }
    var prodData, stagingData := prodLoaded.value, stagingLoaded.value;
    if !Truthy(stagingData) {
      return NoStagingData;
    }
    var prodDict := GetAerodromeDict(prodData);
    var stagingDict := GetAerodromeDict(stagingData);
    if prodDict.None? || stagingDict.None? {
      return Crashed;
    }
    var summary := Summarize(prodDict.value, stagingDict.value);
    if !prodData.JObj? || !stagingData.JObj? {
      return Reviewed(summary, None);
    }
    var total := |summary.newIcaos| + |summary.removedIcaos| + |summary.changedIcaos|;
    var recommendation := Recommendation(total, total == 0,
                                         total != 0 && |summary.removedIcaos| > RemovalWarningThreshold,
                                         total != 0 && |summary.newIcaos| > AdditionWarningThreshold);
    assert recommendation == RecommendFor(prodDict.value, stagingDict.value);
    return Reviewed(summary, Some(recommendation));
  }

  /** A list without repeats is as long as the set of its elements. */
  lemma {:induction false} ChangedCount(xs: seq<Json>, s: set<Json>)
    requires NoRepeats(xs)
    requires forall k :: k in xs <==> k in s
    ensures |xs| == |s|
  {
    if xs != [] {
      var last := xs[|xs| - 1];
      var init := xs[..|xs| - 1];
      assert NoRepeats(init);
      forall k ensures k in init <==> k in s - {last} {
        if k in init {
          var i :| 0 <= i < |init| && init[i] == k;
          assert xs[i] == k;
        }
        if k in xs && k != last {
          var i :| 0 <= i < |xs| && xs[i] == k;
          assert init[i] == k;
        }
      }
      ChangedCount(init, s - {last});
    } else {
      forall k | k in s ensures false {
      }
    }
  }

  // ---------------------------------------------------------------------
  // Properties of the comparison

  /** Each code lands in at most one section, and only codes of the two
      dicts land in any. */
  lemma SectionsPartition(prod: map<Json, Json>, staging: map<Json, Json>)
    ensures NewIcaos(prod, staging) !! RemovedIcaos(prod, staging)
    ensures NewIcaos(prod, staging) !! ChangedIcaos(prod, staging)
    ensures RemovedIcaos(prod, staging) !! ChangedIcaos(prod, staging)
    ensures NewIcaos(prod, staging) + RemovedIcaos(prod, staging) + ChangedIcaos(prod, staging)
            <= prod.Keys + staging.Keys
  {
  }

  /** "No changes" is reported exactly when the two dicts are equal. */
  lemma NoChangesIffIdentical(prod: map<Json, Json>, staging: map<Json, Json>)
    ensures RecommendFor(prod, staging).noChanges <==> prod == staging
  {
    if RecommendFor(prod, staging).noChanges {
      assert NewIcaos(prod, staging) == {};
      assert RemovedIcaos(prod, staging) == {};
      assert ChangedIcaos(prod, staging) == {};
      forall k | k in prod ensures k in staging && prod[k] == staging[k] {
        assert k !in RemovedIcaos(prod, staging);
        assert k !in ChangedIcaos(prod, staging);
      }
      forall k | k in staging ensures k in prod {
        assert k !in NewIcaos(prod, staging);
      }
    }
  }

  /** Swapping the two documents swaps the new and removed sections and
      keeps the changed one. */
  lemma SwapSymmetry(prod: map<Json, Json>, staging: map<Json, Json>)
    ensures NewIcaos(staging, prod) == RemovedIcaos(prod, staging)
    ensures RemovedIcaos(staging, prod) == NewIcaos(prod, staging)
    ensures ChangedIcaos(staging, prod) == ChangedIcaos(prod, staging)
    ensures RecommendFor(staging, prod).totalChanges == RecommendFor(prod, staging).totalChanges
  {
  }

  /** The size difference the summary prints is the number of new codes
      less the number of removed ones. */
  lemma NetChangeBalance(prod: map<Json, Json>, staging: map<Json, Json>)
    ensures |staging| - |prod| == |NewIcaos(prod, staging)| - |RemovedIcaos(prod, staging)|
  {
    KeysSplit(staging, prod);
    KeysSplit(prod, staging);
    assert staging.Keys * prod.Keys == prod.Keys * staging.Keys;
  }

  /** The keys of `m` are those `other` lacks and those both have. */
  lemma KeysSplit(m: map<Json, Json>, other: map<Json, Json>)
    ensures |m| == |m.Keys - other.Keys| + |m.Keys * other.Keys|
  {
    var only, common := m.Keys - other.Keys, m.Keys * other.Keys;
    assert m.Keys == only + common by {
      forall k ensures k in m.Keys <==> k in only + common {
      }
    }
    DisjointUnionSize(only, common);
  }
}
