/** validate.py: the checks run on the production registry once the JSON
    schema has accepted it — the declared count against the list length,
    then the search for ICAO codes that occur more than once. The schema
    check is a library call on a schema this model does not hold, so it is
    a parameter. */
module Integrity {
  import opened Wrappers
  import opened JsonValues
  import opened Aerodromes
  import Sync

  const SchemaPath: string := "schema.json"
  const DataPath: string := "aerodromes.json"

  /** How validate_aerodrome_data ends. Every outcome but Valid makes it
      return False. */
  datatype Verdict =
    | Valid
    | FileMissing(path: string)
    | InvalidJson(path: string)
    | SchemaRejected
    | Raised
    | CountMismatch(actual: nat)
    | Duplicates(codes: set<Json>)

  /** Python's `len(value)`; None stands for the TypeError. */
  function Length(value: Json): Option<nat> {
    match value
    case JArr(items) => Some(|items|)
    case JObj(fields) => Some(|fields|)
    case JStr(s) => Some(|s|)
    case _ => None
  }

  /** `[aerodrome['icao'] for aerodrome in records]`; None stands for the
      KeyError of a record without `icao`. */
  function IcaoValues(records: seq<Json>): (codes: Option<seq<Json>>)
    ensures codes.Some? <==> forall i :: 0 <= i < |records| ==> records[i].JObj? && "icao" in records[i].fields
    ensures codes.Some? ==>
      && |codes.value| == |records|
      && forall i :: 0 <= i < |records| ==> codes.value[i] == records[i].fields["icao"]
  {
    if forall i :: 0 <= i < |records| ==> records[i].JObj? && "icao" in records[i].fields
    then Some(seq(|records|, i requires 0 <= i < |records| => records[i].fields["icao"]))
    else None
  }

  /** A value `set(...)` accepts: lists and dicts are unhashable. */
  predicate Hashable(value: Json) {
    !value.JArr? && !value.JObj?
  }

  /** Python's `codes.count(c)`, which compares with `==`, so `True`
      counts as `1`. */
  function Count(codes: seq<Json>, c: Json): nat {
    if codes == [] then 0
    else (if EqualityKey(codes[0]) == EqualityKey(c) then 1 else 0) + Count(codes[1..], c)
  }

  /** `[code for code in set(codes) if codes.count(code) > 1]`, as the set
      of the code values that have an equal partner. */
  function DuplicateCodes(codes: seq<Json>): set<Json> {
    set c | c in codes && Count(codes, c) > 1
  }

  /** No two codes are equal in Python's sense. */
  predicate Distinct(codes: seq<Json>) {
    forall i, j :: 0 <= i < j < |codes| ==> EqualityKey(codes[i]) != EqualityKey(codes[j])
  }

  /** A code counted at least once equals the code at some position. */
  lemma {:induction false} CountedOccurs(codes: seq<Json>, c: Json) returns (i: nat)
    requires Count(codes, c) > 0
    ensures i < |codes| && EqualityKey(codes[i]) == EqualityKey(c)
  {
    if EqualityKey(codes[0]) == EqualityKey(c) {
      i := 0;
    } else {
      var k := CountedOccurs(codes[1..], c);
      assert codes[k + 1] == codes[1..][k];
      i := k + 1;
    }
  }

  /** A code equal to the one at position `j` is counted at least once. */
  lemma {:induction false} OccursCounted(codes: seq<Json>, j: nat, c: Json)
    requires j < |codes| && EqualityKey(codes[j]) == EqualityKey(c)
    ensures Count(codes, c) > 0
  {
    if j > 0 && EqualityKey(codes[0]) != EqualityKey(c) {
      OccursCounted(codes[1..], j - 1, c);
    }
  }

  /** Two positions carrying values equal to `c` make it counted twice. */
  lemma {:induction false} TwoPositionsCounted(codes: seq<Json>, c: Json, i: nat, j: nat)
    requires i < j < |codes| && EqualityKey(codes[i]) == EqualityKey(c) && EqualityKey(codes[j]) == EqualityKey(c)
    ensures Count(codes, c) > 1
  {
    assert codes[1..][j - 1] == codes[j];
    if i == 0 {
      OccursCounted(codes[1..], j - 1, c);
    } else {
      assert codes[1..][i - 1] == codes[i];
      TwoPositionsCounted(codes[1..], c, i - 1, j - 1);
    }
  }

  /** A code counted twice has two positions carrying values equal to it. */
  lemma {:induction false} CountedTwicePositions(codes: seq<Json>, c: Json) returns (i: nat, j: nat)
    requires Count(codes, c) > 1
    ensures i < j < |codes| && EqualityKey(codes[i]) == EqualityKey(c) && EqualityKey(codes[j]) == EqualityKey(c)
  {
    var rest := codes[1..];
    if EqualityKey(codes[0]) == EqualityKey(c) {
      var k := CountedOccurs(rest, c);
      assert codes[k + 1] == rest[k];
      i, j := 0, k + 1;
    } else {
      var p, q := CountedTwicePositions(rest, c);
      assert codes[p + 1] == rest[p] && codes[q + 1] == rest[q];
      i, j := p + 1, q + 1;
    }
  }

  /** A code is counted at least twice exactly when two positions carry
      values equal to it. */
  lemma CountAtLeastTwo(codes: seq<Json>, c: Json)
    ensures Count(codes, c) > 1 <==>
      exists i, j :: 0 <= i < j < |codes| && EqualityKey(codes[i]) == EqualityKey(c) && EqualityKey(codes[j]) == EqualityKey(c)
  {
    if Count(codes, c) > 1 {
      var i, j := CountedTwicePositions(codes, c);
    }
    if exists i, j :: 0 <= i < j < |codes| && EqualityKey(codes[i]) == EqualityKey(c) && EqualityKey(codes[j]) == EqualityKey(c) {
      var i, j :| 0 <= i < j < |codes| && EqualityKey(codes[i]) == EqualityKey(c) && EqualityKey(codes[j]) == EqualityKey(c);
      TwoPositionsCounted(codes, c, i, j);
    }
  }

  /** A code of the list is reported exactly when two positions carry
      values equal to it. */
  lemma DuplicateCodesExact(codes: seq<Json>, c: Json)
    ensures c in DuplicateCodes(codes) <==>
      c in codes &&
      exists i, j :: 0 <= i < j < |codes| && EqualityKey(codes[i]) == EqualityKey(c) && EqualityKey(codes[j]) == EqualityKey(c)
  {
    CountAtLeastTwo(codes, c);
  }

  /** The duplicates list is empty exactly when the codes are distinct. */
  lemma NoDuplicatesIffDistinct(codes: seq<Json>)
    ensures DuplicateCodes(codes) == {} <==> Distinct(codes)
  {
    if !Distinct(codes) {
      var i, j :| 0 <= i < j < |codes| && EqualityKey(codes[i]) == EqualityKey(codes[j]);
      DuplicateCodesExact(codes, codes[i]);
    }
    if DuplicateCodes(codes) != {} {
      var c :| c in DuplicateCodes(codes);
      DuplicateCodesExact(codes, c);
    }
  }

  /** The checks after the schema step (validate.py lines 26-44): the
      fields the summary prints, the count, then the duplicates. A document
      passes only if its record count equals `total_count` and its records
      carry distinct codes; a failing count reports the actual length, and
      a duplicates failure reports at least one code. */
  function PostSchemaChecks(data: Json): (v: Verdict)
    ensures v == Valid ==>
      && data.JObj? && "total_count" in data.fields && "aerodromes" in data.fields
      && Length(data.fields["aerodromes"]).Some?
      && EqualsInt(data.fields["total_count"], Length(data.fields["aerodromes"]).value)
      && RecordsOf(data.fields["aerodromes"]).Some?
      && IcaoValues(RecordsOf(data.fields["aerodromes"]).value).Some?
      && Distinct(IcaoValues(RecordsOf(data.fields["aerodromes"]).value).value)
    ensures v.CountMismatch? ==>
      && data.JObj? && "total_count" in data.fields && "aerodromes" in data.fields
      && Length(data.fields["aerodromes"]) == Some(v.actual)
      && !EqualsInt(data.fields["total_count"], v.actual)
    ensures v.Duplicates? ==> v.codes != {}
  {
    if !(data.JObj? && "total_count" in data.fields && "last_updated" in data.fields
         && "version" in data.fields && "aerodromes" in data.fields) then Raised
    else
      var aerodromes := data.fields["aerodromes"];
      match Length(aerodromes)
      case None => Raised
      case Some(actual) =>
        if !EqualsInt(data.fields["total_count"], actual) then CountMismatch(actual)
        else
          match RecordsOf(aerodromes)
          case None => Raised
          case Some(records) =>
            match IcaoValues(records)
            case None => Raised
            case Some(codes) =>
              if exists i :: 0 <= i < |codes| && !Hashable(codes[i]) then Raised
              else if DuplicateCodes(codes) != {} then Duplicates(DuplicateCodes(codes))
              else NoDuplicatesIffDistinct(codes); Valid
  }

  /** validate_aerodrome_data over the working directory's files, with the
      schema library's verdict `accepts(schema, instance)` as a parameter.
      True is returned only when both files load, the schema accepts the
      data, and the post-schema checks pass. */
  function ValidateAerodromeData(files: map<string, FileContent>, accepts: (Json, Json) -> bool): (v: Verdict)
    ensures v == Valid <==>
      && SchemaPath in files && files[SchemaPath].Parsed?
      && DataPath in files && files[DataPath].Parsed?
      && accepts(files[SchemaPath].doc, files[DataPath].doc)
      && PostSchemaChecks(files[DataPath].doc) == Valid
  {
    if SchemaPath !in files then FileMissing(SchemaPath)
    else if files[SchemaPath].Unparsable? then InvalidJson(SchemaPath)
    else if files[SchemaPath].Undecodable? then Raised
    else if DataPath !in files then FileMissing(DataPath)
    else if files[DataPath].Unparsable? then InvalidJson(DataPath)
    else if files[DataPath].Undecodable? then Raised
    else if !accepts(files[SchemaPath].doc, files[DataPath].doc) then SchemaRejected
    else PostSchemaChecks(files[DataPath].doc)
  }

  /** Python's `1 == True`: a record keyed `1` and one keyed `true` are
      duplicates, and both values are reported. */
  lemma OneAndTrueAreDuplicates()
    ensures var records := [JObj(map["icao" := JNum(1)]), JObj(map["icao" := JBool(true)])];
      var data := JObj(map["version" := JStr("1"), "last_updated" := JStr(""), "total_count" := JNum(2),
                           "aerodromes" := JArr(records)]);
      PostSchemaChecks(data) == Duplicates({JNum(1), JBool(true)})
  {
    var records := [JObj(map["icao" := JNum(1)]), JObj(map["icao" := JBool(true)])];
    var codes := [JNum(1), JBool(true)];
    assert IcaoValues(records).Some?;
    assert IcaoValues(records).value[0] == codes[0] && IcaoValues(records).value[1] == codes[1];
    assert IcaoValues(records).value == codes;
    assert Count(codes, JNum(1)) == 2 && Count(codes, JBool(true)) == 2;
    assert DuplicateCodes(codes) == {JNum(1), JBool(true)};
  }

  /** A document whose declared count differs from its list's length is
      refused, whatever its records hold. */
  lemma CountMismatchFails(data: Json, items: seq<Json>)
    requires data.JObj? && "total_count" in data.fields && "last_updated" in data.fields && "version" in data.fields
    requires "aerodromes" in data.fields && data.fields["aerodromes"] == JArr(items)
    requires !EqualsInt(data.fields["total_count"], |items|)
    ensures PostSchemaChecks(data) == CountMismatch(|items|)
  {
  }

  /** A document with a list of records passes the post-schema checks
      exactly when the count matches, every record has a hashable `icao`
      and no code repeats; with a matching count and hashable codes, the
      verdict lists precisely the repeated codes. */
  lemma ListVerdict(data: Json, records: seq<Json>)
    requires data.JObj? && "total_count" in data.fields && "last_updated" in data.fields && "version" in data.fields
    requires "aerodromes" in data.fields && data.fields["aerodromes"] == JArr(records)
    requires forall i :: 0 <= i < |records| ==> records[i].JObj? && "icao" in records[i].fields
    ensures var codes := IcaoValues(records).value;
      PostSchemaChecks(data) == Valid <==>
        && EqualsInt(data.fields["total_count"], |records|)
        && (forall i :: 0 <= i < |codes| ==> Hashable(codes[i]))
        && Distinct(codes)
    ensures var codes := IcaoValues(records).value;
      EqualsInt(data.fields["total_count"], |records|) && (forall i :: 0 <= i < |codes| ==> Hashable(codes[i])) ==>
        PostSchemaChecks(data) == if Distinct(codes) then Valid else Duplicates(DuplicateCodes(codes))
  {
    NoDuplicatesIffDistinct(IcaoValues(records).value);
  }

  /** The registry document the sync step writes passes the post-schema
      checks whenever its records carry distinct codes. */
  lemma {:induction false} DistinctRegistryPasses(version: string, lastUpdated: string, aerodromes: seq<Entry>)
    requires DistinctIcaos(aerodromes)
    ensures PostSchemaChecks(RegistryToJson(Sync.AssembleDocument(version, lastUpdated, aerodromes))) == Valid
  {
    var doc := RegistryToJson(Sync.AssembleDocument(version, lastUpdated, aerodromes));
    var records := doc.fields["aerodromes"].items;
    forall i | 0 <= i < |records| ensures records[i] == EntryToJson(aerodromes[i]) {
    }
    var codes := IcaoValues(records).value;
    forall i, j | 0 <= i < j < |codes| ensures EqualityKey(codes[i]) != EqualityKey(codes[j]) {
      assert codes[i] == JStr(aerodromes[i].icao) && codes[j] == JStr(aerodromes[j].icao);
    }
    ListVerdict(doc, records);
  }

  /** The registry build_registry produces, once assembled and written,
      passes the post-schema checks when no two overrides share a code that
      is not a primary code. */
  lemma SyncOutputPasses(r: seq<Entry>, airports: map<string, Sync.Airport>, timezones: map<string, string>,
                         overrides: seq<Sync.Override>, fallback: string -> string,
                         version: string, lastUpdated: string)
    requires Sync.IsRegistryFor(r, airports, timezones, overrides, fallback)
    requires Sync.DistinctNewOverrideIcaos(overrides, airports.Keys)
    ensures PostSchemaChecks(RegistryToJson(Sync.AssembleDocument(version, lastUpdated, r))) == Valid
  {
    Sync.RegistryDistinct(r, airports, timezones, overrides, fallback);
    DistinctRegistryPasses(version, lastUpdated, r);
  }
}
