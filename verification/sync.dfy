/** The sync step (sync_aerodromes.py): normalise the OurAirports rows and
    the OpenFlights lines, merge them with the operator overrides into the
    registry, and assemble the staging document. */
module Sync {
  import opened Wrappers
  import opened Text
  import opened Keyed
  import opened Sets
  import opened Aerodromes

  /** One OurAirports CSV row: column name to cell text. */
  type Row = map<string, string>

  /** What the primary feed contributes per aerodrome (coordinates are not
      carried: they never reach the registry). */
  datatype Airport = Airport(name: string, countryCode: string)

  /** One element of an override file; every key may be absent. */
  datatype Override = Override(
    icao: Option<string>,
    name: Option<string>,
    country: Option<string>,
    timezone: Option<string>)

  /** The sync counters, printed at the end of the run. */
  datatype Stats = Stats(matched: nat, fallback: nat, overrides: nat, overridden: nat)

  /** Timezone values the OpenFlights export uses for "unknown"; `r'\N'`
      and `'\\N'` are the same two-character string. */
  const InvalidTimezoneValues: seq<string> := ["\\N", "N", "", "NULL", "\\N"]
  const DefaultTimezone: string := "UTC"
  const HeaderPrefix: string := "Airport ID"
  const Quote: set<char> := {'"'}

  /** `row.get(column, '')`. */
  function Cell(row: Row, column: string): string {
    if column in row then row[column] else ""
  }

  // ---------------------------------------------------------------------
  // OurAirports rows

  /** The ICAO key of a row: a 4-character `icao_code` cell, else a
      4-letter `ident` cell, both after stripping. */
  function ExtractIcaoCode(row: Row): (r: Option<string>)
    ensures r.Some? ==> |r.value| == 4
    ensures r.Some? ==>
      r.value == Strip(Cell(row, "icao_code")) || (r.value == Strip(Cell(row, "ident")) && IsAlpha(r.value))
    ensures |Strip(Cell(row, "icao_code"))| == 4 ==> r.Some?
  {
    var icaoField := Strip(Cell(row, "icao_code"));
    var identField := Strip(Cell(row, "ident"));
    if icaoField != "" && |icaoField| == 4 then Some(icaoField)
    else if identField != "" && |identField| == 4 && IsAlpha(identField) then Some(identField)
    else None
  }

  /** A usable `icao_code` decides the key whatever `ident` holds, and it
      is not required to be alphabetic. */
  lemma IcaoCodeTakesPriority(row: Row, ident: string)
    requires |Strip(Cell(row, "icao_code"))| == 4
    ensures ExtractIcaoCode(row) == Some(Strip(Cell(row, "icao_code")))
    ensures ExtractIcaoCode(row["ident" := ident]) == ExtractIcaoCode(row)
  {
    assert Cell(row["ident" := ident], "icao_code") == Cell(row, "icao_code");
  }

  /** Without a usable `icao_code`, a key exists exactly when the stripped
      `ident` is four letters. */
  lemma IdentFallback(row: Row)
    requires |Strip(Cell(row, "icao_code"))| != 4
    ensures ExtractIcaoCode(row).Some? <==>
      |Strip(Cell(row, "ident"))| == 4 && IsAlpha(Strip(Cell(row, "ident")))
    ensures ExtractIcaoCode(row).Some? ==> ExtractIcaoCode(row).value == Strip(Cell(row, "ident"))
  {
    var icaoField := Strip(Cell(row, "icao_code"));
    var identField := Strip(Cell(row, "ident"));
    assert !(icaoField != "" && |icaoField| == 4);
    assert ExtractIcaoCode(row) ==
      if identField != "" && |identField| == 4 && IsAlpha(identField) then Some(identField) else None;
  }

  predicate IsClosed(row: Row) {
    Strip(Cell(row, "type")) == "closed"
  }

  function AirportOf(row: Row): Airport {
    Airport(Strip(Cell(row, "name")), Strip(Cell(row, "iso_country")))
  }

  /** What one row contributes to the airports dict, if anything: a row
      contributes a code exactly when it is open and that code is its key,
      and it contributes its stripped name and country. */
  function AirportRecord(row: Row): (r: Option<(string, Airport)>)
    ensures forall k :: Contributes(row, k) <==> YieldsKey(r, k)
    ensures r.Some? ==> r.value.1 == AirportOf(row)
  {
    if IsClosed(row) then None
    else
      match ExtractIcaoCode(row)
      case None => None
      case Some(icao) => Some((icao, AirportOf(row)))
  }

  /** process_ourairports_data, after CSV tokenising. */
  method ProcessOurAirportsData(rows: seq<Row>) returns (airports: map<string, Airport>)
    ensures airports == LastWins(rows, AirportRecord)
  {
    airports := map[];
    for i := 0 to |rows|
      invariant airports == LastWins(rows[..i], AirportRecord)
    {
      airports := AddAirport(airports, rows, i);
    }
    assert rows[..|rows|] == rows;
  }

  /** One iteration of the loop of process_ourairports_data: row `i`, if
      open and keyed, goes into the dict built from the earlier rows. */
  method AddAirport(airports: map<string, Airport>, rows: seq<Row>, i: nat)
    returns (updated: map<string, Airport>)
    requires i < |rows| && airports == LastWins(rows[..i], AirportRecord)
    ensures updated == LastWins(rows[..i + 1], AirportRecord)
  {
    var row := rows[i];
    LastWinsStep(rows, i, AirportRecord);
    updated := airports;
    if !IsClosed(row) {
      var icao := ExtractIcaoCode(row);
      if icao.Some? {
        assert AirportRecord(row) == Some((icao.value, AirportOf(row)));
        updated := airports[icao.value := AirportOf(row)];
      } else {
        assert AirportRecord(row) == None;
      }
    } else {
      assert AirportRecord(row) == None;
    }
  }

  /** A row contributes the code `k`: it is open and its key is `k`. */
  predicate Contributes(row: Row, k: string) {
    !IsClosed(row) && ExtractIcaoCode(row) == Some(k)
  }

  /** A code is a key exactly when some open row extracts it. */
  lemma OurAirportsKeys(rows: seq<Row>, k: string)
    ensures k in LastWins(rows, AirportRecord) <==> exists i :: 0 <= i < |rows| && Contributes(rows[i], k)
  {
    LastWinsKeys(rows, AirportRecord, k);
    if exists i :: 0 <= i < |rows| && Contributes(rows[i], k) {
      var i :| 0 <= i < |rows| && Contributes(rows[i], k);
      assert YieldsKey(AirportRecord(rows[i]), k);
    }
  }

  /** The record under a code is that of the last open row extracting it. */
  lemma OurAirportsLastRowWins(rows: seq<Row>, k: string)
    requires k in LastWins(rows, AirportRecord)
    ensures exists j ::
              && 0 <= j < |rows| && Contributes(rows[j], k)
              && LastWins(rows, AirportRecord)[k] == AirportOf(rows[j])
              && forall i :: j < i < |rows| ==> !Contributes(rows[i], k)
  {
    var m := LastWins(rows, AirportRecord);
    LastWinsValue(rows, AirportRecord, k);
    var j :| 0 <= j < |rows| && AirportRecord(rows[j]) == Some((k, m[k]))
      && forall i :: j < i < |rows| ==> !YieldsKey(AirportRecord(rows[i]), k);
    assert Contributes(rows[j], k);
    forall i | j < i < |rows| ensures !Contributes(rows[i], k) {
      assert !YieldsKey(AirportRecord(rows[i]), k);
    }
  }

  // ---------------------------------------------------------------------
  // OpenFlights lines

  /** What one OpenFlights line contributes to the timezones dict: the
      ICAO code from field 5 and the timezone from field 11, quotes
      stripped. A line supplies an entry only if it is not the header and
      has at least twelve fields, and the entry has a 4-character code and
      a usable timezone. */
  function TimezoneRecord(line: string): (r: Option<(string, string)>)
    ensures r.Some? ==> |r.value.0| == 4 && r.value.1 != "" && r.value.1 !in InvalidTimezoneValues
    ensures r.Some? ==> !StartsWith(line, HeaderPrefix) && |Split(line, ',')| >= 12
  {
    if StartsWith(line, HeaderPrefix) then None
    else
      var fields := Split(line, ',');
      if |fields| < 12 then None
      else
        var icao := StripChars(fields[5], Quote);
        var timezone := StripChars(fields[11], Quote);
        if icao != "" && timezone != "" && |icao| == 4 && timezone !in InvalidTimezoneValues
        then Some((icao, timezone))
        else None
  }

  /** A line of twelve or more comma-free fields that is not the header
      supplies the quote-stripped fields 5 and 11 exactly when the code has
      four characters and the timezone is non-empty and not an invalid
      value, and nothing otherwise. */
  lemma TimezoneLineFields(fields: seq<string>)
    requires |fields| >= 12
    requires forall i :: 0 <= i < |fields| ==> ',' !in fields[i]
    requires !StartsWith(Join(fields, ','), HeaderPrefix)
    ensures var icao, timezone := StripChars(fields[5], Quote), StripChars(fields[11], Quote);
      TimezoneRecord(Join(fields, ',')) ==
        if |icao| == 4 && timezone != "" && timezone !in InvalidTimezoneValues then Some((icao, timezone)) else None
  {
    SplitJoin(fields, ',');
  }

  /** The lines `data.strip().split('\n')` yields. */
  function Lines(data: string): seq<string> {
    Split(Strip(data), '\n')
  }

  /** process_openflights_data. */
  method ProcessOpenFlightsData(data: string) returns (timezones: map<string, string>)
    ensures timezones == LastWins(Lines(data), TimezoneRecord)
  {
    timezones := CollectTimezones(Split(Strip(data), '\n'));
  }

  /** The loop of process_openflights_data over the lines of the file. */
  method CollectTimezones(lines: seq<string>) returns (timezones: map<string, string>)
    ensures timezones == LastWins(lines, TimezoneRecord)
  {
    timezones := map[];
    for i := 0 to |lines|
      invariant timezones == LastWins(lines[..i], TimezoneRecord)
    {
      timezones := AddTimezone(timezones, lines, i);
    }
    assert lines[..|lines|] == lines;
  }

  /** One iteration of the loop of process_openflights_data: the entry of
      line `i`, if any, goes into the dict built from the earlier lines. */
  method AddTimezone(timezones: map<string, string>, lines: seq<string>, i: nat)
    returns (updated: map<string, string>)
    requires i < |lines| && timezones == LastWins(lines[..i], TimezoneRecord)
    ensures updated == LastWins(lines[..i + 1], TimezoneRecord)
  {
    LastWinsStep(lines, i, TimezoneRecord);
    var entry := TimezoneRecord(lines[i]);
    updated := timezones;
    if entry.Some? {
      updated := timezones[entry.value.0 := entry.value.1];
    }
  }

  /** Every kept entry has a 4-character code and a usable timezone that
      some line supplied; a code is kept exactly when some line supplies it. */
  lemma OpenFlightsEntries(lines: seq<string>, k: string)
    ensures k in LastWins(lines, TimezoneRecord) <==>
      exists i :: 0 <= i < |lines| && YieldsKey(TimezoneRecord(lines[i]), k)
    ensures k in LastWins(lines, TimezoneRecord) ==>
      |k| == 4 && LastWins(lines, TimezoneRecord)[k] != "" &&
      LastWins(lines, TimezoneRecord)[k] !in InvalidTimezoneValues
  {
    LastWinsKeys(lines, TimezoneRecord, k);
    if k in LastWins(lines, TimezoneRecord) {
      LastWinsValue(lines, TimezoneRecord, k);
      var j :| 0 <= j < |lines| && TimezoneRecord(lines[j]) == Some((k, LastWins(lines, TimezoneRecord)[k]))
               && forall i :: j < i < |lines| ==> !YieldsKey(TimezoneRecord(lines[i]), k);
    }
  }

  // ---------------------------------------------------------------------
  // build_registry

  function OverrideRecord(o: Override): Option<(string, Override)> {
    if o.icao.Some? then Some((o.icao.value, o)) else None
  }

  /** `override_lookup`: overrides carrying an `icao`, the last one winning.
      Every override with a code is looked up under that code, and the
      override found under a code carries it. */
  function OverrideLookup(overrides: seq<Override>): (lookup: map<string, Override>)
    ensures forall i :: 0 <= i < |overrides| && overrides[i].icao.Some? ==> overrides[i].icao.value in lookup
    ensures forall k :: k in lookup ==> lookup[k].icao == Some(k)
  {
    LookupByOwnCode(overrides);
    LastWins(overrides, OverrideRecord)
  }

  lemma {:induction false} LookupByOwnCode(overrides: seq<Override>)
    ensures forall i :: 0 <= i < |overrides| && overrides[i].icao.Some? ==>
      overrides[i].icao.value in LastWins(overrides, OverrideRecord)
    ensures forall k :: k in LastWins(overrides, OverrideRecord) ==> LastWins(overrides, OverrideRecord)[k].icao == Some(k)
  {
    if overrides != [] {
      var init := overrides[..|overrides| - 1];
      LookupByOwnCode(init);
      assert forall i :: 0 <= i < |init| ==> init[i] == overrides[i];
    }
  }

  /** Where several overrides name one ICAO code, the lookup holds the last. */
  lemma LastOverrideWins(overrides: seq<Override>, k: string)
    ensures k in OverrideLookup(overrides) <==> exists i :: 0 <= i < |overrides| && overrides[i].icao == Some(k)
    ensures k in OverrideLookup(overrides) ==>
      exists j :: 0 <= j < |overrides| && OverrideLookup(overrides)[k] == overrides[j]
        && overrides[j].icao == Some(k)
        && forall i :: j < i < |overrides| ==> overrides[i].icao != Some(k)
  {
    LastWinsKeys(overrides, OverrideRecord, k);
    if k in OverrideLookup(overrides) {
      LastWinsValue(overrides, OverrideRecord, k);
      var j :| 0 <= j < |overrides| && OverrideRecord(overrides[j]) == Some((k, OverrideLookup(overrides)[k]))
        && forall i :: j < i < |overrides| ==> !YieldsKey(OverrideRecord(overrides[i]), k);
      forall i | j < i < |overrides| ensures overrides[i].icao != Some(k) {
        assert !YieldsKey(OverrideRecord(overrides[i]), k);
      }
    }
    if exists i :: 0 <= i < |overrides| && overrides[i].icao == Some(k) {
      var i :| 0 <= i < |overrides| && overrides[i].icao == Some(k);
      assert YieldsKey(OverrideRecord(overrides[i]), k);
    }
  }

  /** `timezones.get(icao)` is truthy. */
  predicate HasTimezone(timezones: map<string, string>, icao: string) {
    icao in timezones && timezones[icao] != ""
  }

  /** The record a primary ICAO code yields: the override's fields where it
      gives them, otherwise the primary fields; the timezone comes from the
      source the counters attribute it to. */
  function PrimaryEntry(icao: string, a: Airport, lookup: map<string, Override>,
                        timezones: map<string, string>, fallback: string -> string): (e: Entry)
    ensures e.icao == icao
    ensures icao in lookup ==>
      e.name == lookup[icao].name.GetOr(a.name) && e.country == lookup[icao].country.GetOr(a.countryCode)
    ensures icao !in lookup ==> e.name == a.name && e.country == a.countryCode
    ensures match SourceOf(icao, lookup, timezones)
      case FromOverride => e.timezone == lookup[icao].timezone.GetOr(DefaultTimezone)
      case FromTimezones => e.timezone == timezones[icao] && e.timezone != ""
      case FromFallback => e.timezone == fallback(a.countryCode)
  {
    if icao in lookup then
      var o := lookup[icao];
      Entry(icao, o.name.GetOr(a.name), o.country.GetOr(a.countryCode), o.timezone.GetOr(DefaultTimezone))
    else
      Entry(icao, a.name, a.countryCode,
            if HasTimezone(timezones, icao) then timezones[icao] else fallback(a.countryCode))
  }

  /** The record an override for an unknown ICAO code yields: its own
      fields, with '' for a missing name or country and UTC for a missing
      timezone. */
  function NewEntry(o: Override): (e: Entry)
    requires o.icao.Some?
    ensures e.icao == o.icao.value
    ensures e.name == (if o.name.Some? then o.name.value else "")
    ensures e.country == (if o.country.Some? then o.country.value else "")
    ensures e.timezone == (if o.timezone.Some? then o.timezone.value else DefaultTimezone)
  {
    Entry(o.icao.value, o.name.GetOr(""), o.country.GetOr(""), o.timezone.GetOr(DefaultTimezone))
  }

  /** The records appended for overrides whose code is not in `existing`,
      in override order; two such overrides with one code are both kept. */
  function AddedEntries(overrides: seq<Override>, existing: set<string>): (r: seq<Entry>)
    ensures |r| <= |overrides|
    ensures forall i :: 0 <= i < |r| ==> r[i].icao !in existing
    ensures forall i :: 0 <= i < |r| ==> exists j :: 0 <= j < |overrides| && overrides[j].icao == Some(r[i].icao)
  {
    if overrides == [] then []
    else
      var init := overrides[..|overrides| - 1];
      var o := overrides[|overrides| - 1];
      var r := AddedEntries(init, existing);
      assert forall j :: 0 <= j < |init| ==> overrides[j] == init[j];
      if o.icao.Some? && o.icao.value !in existing then r + [NewEntry(o)] else r
  }

  /** The last override contributes at the end, if at all. */
  lemma AddedEntriesLast(overrides: seq<Override>, existing: set<string>)
    requires overrides != []
    ensures var o := overrides[|overrides| - 1];
      AddedEntries(overrides, existing) ==
        AddedEntries(overrides[..|overrides| - 1], existing) +
        (if o.icao.Some? && o.icao.value !in existing then [NewEntry(o)] else [])
  {
  }

  lemma AddedEntriesStep(overrides: seq<Override>, i: int, existing: set<string>)
    requires 0 <= i < |overrides|
    ensures AddedEntries(overrides[..i + 1], existing) ==
            AddedEntries(overrides[..i], existing) +
            (if overrides[i].icao.Some? && overrides[i].icao.value !in existing then [NewEntry(overrides[i])] else [])
  {
    assert overrides[..i + 1][..i] == overrides[..i];
  }

  lemma AppendStep(primary: seq<Entry>, registry: seq<Entry>, overrides: seq<Override>, i: int, existing: set<string>)
    requires 0 <= i < |overrides|
    requires registry == primary + AddedEntries(overrides[..i], existing)
    ensures var o := overrides[i];
      if o.icao.Some? && o.icao.value !in existing then
        registry + [NewEntry(o)] == primary + AddedEntries(overrides[..i + 1], existing) &&
        |AddedEntries(overrides[..i + 1], existing)| == |AddedEntries(overrides[..i], existing)| + 1
      else
        registry == primary + AddedEntries(overrides[..i + 1], existing)
  {
    AddedEntriesStep(overrides, i, existing);
  }

  /** Where the timezone of a primary code comes from; each source has its
      own counter. */
  datatype TimezoneSource = FromOverride | FromTimezones | FromFallback

  function SourceOf(icao: string, lookup: map<string, Override>, timezones: map<string, string>): TimezoneSource {
    if icao in lookup then FromOverride
    else if HasTimezone(timezones, icao) then FromTimezones
    else FromFallback
  }

  /** The codes among `keys` whose timezone comes from `src`. */
  function WithSource(keys: set<string>, src: TimezoneSource, lookup: map<string, Override>,
                      timezones: map<string, string>): set<string>
  {
    set k | k in keys && SourceOf(k, lookup, timezones) == src
  }

  /** The counters build_registry reports for these inputs. */
  function ExpectedStats(airports: map<string, Airport>, timezones: map<string, string>,
                         overrides: seq<Override>): Stats
  {
    var lookup := OverrideLookup(overrides);
    Stats(|WithSource(airports.Keys, FromTimezones, lookup, timezones)|,
          |WithSource(airports.Keys, FromFallback, lookup, timezones)|,
          |AddedEntries(overrides, airports.Keys)|,
          |WithSource(airports.Keys, FromOverride, lookup, timezones)|)
  }

  /** What build_registry returns: sorted by code; each primary code
      carries exactly its primary record; any other code carries exactly
      the records appended for it, in override order. */
  ghost predicate IsRegistryFor(r: seq<Entry>, airports: map<string, Airport>, timezones: map<string, string>,
                                overrides: seq<Override>, fallback: string -> string)
  {
    && SortedByIcao(r)
    && |r| == |airports| + |AddedEntries(overrides, airports.Keys)|
    && forall k :: WithIcao(r, k) ==
         if k in airports then [PrimaryEntry(k, airports[k], OverrideLookup(overrides), timezones, fallback)]
         else WithIcao(AddedEntries(overrides, airports.Keys), k)
  }

  /** Moving one code into the processed set adds one to its source's
      counter and leaves the other counters alone. */
  lemma SourceStep(done: set<string>, icao: string, src: TimezoneSource,
                   lookup: map<string, Override>, timezones: map<string, string>)
    requires icao !in done
    ensures |WithSource(done + {icao}, src, lookup, timezones)| ==
            |WithSource(done, src, lookup, timezones)| + (if SourceOf(icao, lookup, timezones) == src then 1 else 0)
  {
    var before, after := WithSource(done, src, lookup, timezones), WithSource(done + {icao}, src, lookup, timezones);
    if SourceOf(icao, lookup, timezones) == src {
      assert after == before + {icao};
    } else {
      assert after == before;
    }
  }

  /** `done` and `remaining` split `keys` between them. */
  predicate Partitioned(keys: set<string>, done: set<string>, remaining: set<string>) {
    done + remaining == keys && done !! remaining
  }

  lemma MoveOne(keys: set<string>, done: set<string>, remaining: set<string>, icao: string)
    requires Partitioned(keys, done, remaining) && icao in remaining
    ensures Partitioned(keys, done + {icao}, remaining - {icao})
    ensures icao !in done && |done + {icao}| == |done| + 1 && |remaining - {icao}| < |remaining|
  {
  }

  /** After the first pass has handled the codes in `done`, each of them
      has its primary record and no other code has any. */
  ghost predicate HoldsPrimaries(registry: seq<Entry>, done: set<string>, airports: map<string, Airport>,
                                 lookup: map<string, Override>, timezones: map<string, string>, fallback: string -> string)
    requires done <= airports.Keys
  {
    forall k ::
      WithIcao(registry, k) == if k in done then [PrimaryEntry(k, airports[k], lookup, timezones, fallback)] else []
  }

  lemma PrimaryStep(registry: seq<Entry>, done: set<string>, icao: string, entry: Entry, airports: map<string, Airport>,
                    lookup: map<string, Override>, timezones: map<string, string>, fallback: string -> string)
    requires done <= airports.Keys && icao in airports && icao !in done
    requires entry == PrimaryEntry(icao, airports[icao], lookup, timezones, fallback)
    requires HoldsPrimaries(registry, done, airports, lookup, timezones, fallback)
    ensures HoldsPrimaries(registry + [entry], done + {icao}, airports, lookup, timezones, fallback)
  {
    WithIcaoSnoc(registry, entry);
  }

  /** The state of the first pass after handling the codes in `done`. */
  ghost predicate FirstPass(registry: seq<Entry>, done: set<string>, matched: nat, fellBack: nat, overridden: nat,
                            airports: map<string, Airport>, lookup: map<string, Override>,
                            timezones: map<string, string>, fallback: string -> string)
    requires done <= airports.Keys
  {
    && |registry| == |done|
    && HoldsPrimaries(registry, done, airports, lookup, timezones, fallback)
    && overridden == |WithSource(done, FromOverride, lookup, timezones)|
    && matched == |WithSource(done, FromTimezones, lookup, timezones)|
    && fellBack == |WithSource(done, FromFallback, lookup, timezones)|
  }

  lemma FirstPassStart(airports: map<string, Airport>, lookup: map<string, Override>,
                       timezones: map<string, string>, fallback: string -> string)
    ensures FirstPass([], {}, 0, 0, 0, airports, lookup, timezones, fallback)
  {
    forall src ensures WithSource({}, src, lookup, timezones) == {} { }
  }

  lemma FirstPassStep(registry: seq<Entry>, done: set<string>, icao: string, entry: Entry,
                      m0: nat, f0: nat, o0: nat, m1: nat, f1: nat, o1: nat,
                      airports: map<string, Airport>, lookup: map<string, Override>,
                      timezones: map<string, string>, fallback: string -> string)
    requires done <= airports.Keys && icao in airports && icao !in done
    requires FirstPass(registry, done, m0, f0, o0, airports, lookup, timezones, fallback)
    requires entry == PrimaryEntry(icao, airports[icao], lookup, timezones, fallback)
    requires var src := SourceOf(icao, lookup, timezones);
      && m1 == m0 + (if src == FromTimezones then 1 else 0)
      && f1 == f0 + (if src == FromFallback then 1 else 0)
      && o1 == o0 + (if src == FromOverride then 1 else 0)
    ensures FirstPass(registry + [entry], done + {icao}, m1, f1, o1, airports, lookup, timezones, fallback)
  {
    SourceStep(done, icao, FromOverride, lookup, timezones);
    SourceStep(done, icao, FromTimezones, lookup, timezones);
    SourceStep(done, icao, FromFallback, lookup, timezones);
    PrimaryStep(registry, done, icao, entry, airports, lookup, timezones, fallback);
  }

  /** After the first pass the codes in the registry are the primary codes. */
  lemma PrimaryCodes(primary: seq<Entry>, airports: map<string, Airport>, lookup: map<string, Override>,
                     timezones: map<string, string>, fallback: string -> string)
    requires HoldsPrimaries(primary, airports.Keys, airports, lookup, timezones, fallback)
    ensures (set e | e in primary :: e.icao) == airports.Keys
  {
    forall k ensures k in (set e | e in primary :: e.icao) <==> k in airports {
      WithIcaoMembers(primary, k);
      if k in airports {
        assert PrimaryEntry(k, airports[k], lookup, timezones, fallback) in WithIcao(primary, k);
      }
    }
  }

  /** Sorting the primary records followed by the appended ones gives the
      registry build_registry specifies. */
  lemma SortedRegistry(primary: seq<Entry>, registry: seq<Entry>, airports: map<string, Airport>,
                       timezones: map<string, string>, overrides: seq<Override>, fallback: string -> string)
    requires |primary| == |airports|
    requires HoldsPrimaries(primary, airports.Keys, airports, OverrideLookup(overrides), timezones, fallback)
    requires registry == SortByIcao(primary + AddedEntries(overrides, airports.Keys))
    ensures IsRegistryFor(registry, airports, timezones, overrides, fallback)
  {
    var appended := AddedEntries(overrides, airports.Keys);
    var lookup := OverrideLookup(overrides);
    assert |registry| == |primary + appended| by {
      assert |multiset(registry)| == |multiset(primary + appended)|;
    }
    forall k ensures WithIcao(registry, k) ==
      if k in airports then [PrimaryEntry(k, airports[k], lookup, timezones, fallback)]
      else WithIcao(appended, k)
    {
      GroupOfConcatenation(primary, appended, airports, lookup, timezones, fallback, k);
    }
  }

  lemma GroupOfConcatenation(primary: seq<Entry>, appended: seq<Entry>, airports: map<string, Airport>,
                             lookup: map<string, Override>, timezones: map<string, string>,
                             fallback: string -> string, k: string)
    requires HoldsPrimaries(primary, airports.Keys, airports, lookup, timezones, fallback)
    requires forall i :: 0 <= i < |appended| ==> appended[i].icao !in airports
    ensures WithIcao(primary + appended, k) ==
      if k in airports then [PrimaryEntry(k, airports[k], lookup, timezones, fallback)]
      else WithIcao(appended, k)
  {
    WithIcaoAppend(primary, appended, k);
    if k in airports {
      WithIcaoNone(appended, k);
    }
  }

  /** The first pass of build_registry: one record per primary code, in
      whatever order the dict yields the codes, with the three counters. */
  method PrimaryRecords(airports: map<string, Airport>, lookup: map<string, Override>,
                        timezones: map<string, string>, fallback: string -> string)
    returns (registry: seq<Entry>, matched: nat, fellBack: nat, overridden: nat)
    ensures |registry| == |airports|
    ensures HoldsPrimaries(registry, airports.Keys, airports, lookup, timezones, fallback)
    ensures overridden == |WithSource(airports.Keys, FromOverride, lookup, timezones)|
    ensures matched == |WithSource(airports.Keys, FromTimezones, lookup, timezones)|
    ensures fellBack == |WithSource(airports.Keys, FromFallback, lookup, timezones)|
  {
    registry := [];
    matched, fellBack, overridden := 0, 0, 0;
    var remaining := airports.Keys;
    ghost var done: set<string> := {};
    FirstPassStart(airports, lookup, timezones, fallback);
    while remaining != {}
      invariant Partitioned(airports.Keys, done, remaining)
      invariant FirstPass(registry, done, matched, fellBack, overridden, airports, lookup, timezones, fallback)
      decreases |remaining|
    {
      var icao :| icao in remaining;
      MoveOne(airports.Keys, done, remaining, icao);
      var data := airports[icao];
      ghost var m0, f0, o0 := matched, fellBack, overridden;
      var entry: Entry;
      if icao in lookup {
        var o := lookup[icao];
        entry := Entry(icao, o.name.GetOr(data.name), o.country.GetOr(data.countryCode), o.timezone.GetOr(DefaultTimezone));
        overridden := overridden + 1;
      } else {
        var timezone: string;
        if icao in timezones && timezones[icao] != "" {
          timezone := timezones[icao];
          matched := matched + 1;
        } else {
          timezone := fallback(data.countryCode);
          fellBack := fellBack + 1;
        }
        entry := Entry(icao, data.name, data.countryCode, timezone);
      }
      assert entry == PrimaryEntry(icao, data, lookup, timezones, fallback);
      FirstPassStep(registry, done, icao, entry, m0, f0, o0, matched, fellBack, overridden,
                    airports, lookup, timezones, fallback);
      registry := registry + [entry];
      remaining := remaining - {icao};
      done := done + {icao};
    }
    assert done == airports.Keys;
    assert |registry| == |airports.Keys|;
  }

  /** The second pass of build_registry: each override whose code is not
      among `existing` is appended as a record of its own, in override
      order. */
  method AppendNewOverrides(primary: seq<Entry>, overrides: seq<Override>, existing: set<string>)
    returns (registry: seq<Entry>, added: nat)
    ensures registry == primary + AddedEntries(overrides, existing)
    ensures added == |AddedEntries(overrides, existing)|
  {
    registry := primary;
    added := 0;
    for i := 0 to |overrides|
      invariant registry == primary + AddedEntries(overrides[..i], existing)
      invariant added == |AddedEntries(overrides[..i], existing)|
    {
      AppendStep(primary, registry, overrides, i, existing);
      var o := overrides[i];
      if o.icao.Some? && o.icao.value !in existing {
        registry := registry + [NewEntry(o)];
        added := added + 1;
      }
    }
    assert overrides[..|overrides|] == overrides;
  }

  /** build_registry. `fallback` stands for country_timezones.get_fallback_timezone. */
  method BuildRegistry(airports: map<string, Airport>, timezones: map<string, string>,
                       overrides: seq<Override>, fallback: string -> string)
    returns (registry: seq<Entry>, stats: Stats)
    ensures IsRegistryFor(registry, airports, timezones, overrides, fallback)
    ensures stats == ExpectedStats(airports, timezones, overrides)
  {
    var lookup := OverrideLookup(overrides);
    var primary, matched, fellBack, overridden := PrimaryRecords(airports, lookup, timezones, fallback);
    var existing := set e | e in primary :: e.icao;
    PrimaryCodes(primary, airports, lookup, timezones, fallback);
    var added;
    registry, added := AppendNewOverrides(primary, overrides, existing);
    registry := SortByIcao(registry);
    stats := Stats(matched, fellBack, added, overridden);
    SortedRegistry(primary, registry, airports, timezones, overrides, fallback);
  }


  /** The three outcomes for a primary code partition the primary map:
      `matched + fallback + overridden` is its size. */
  lemma StatsPartitionPrimary(airports: map<string, Airport>, timezones: map<string, string>, overrides: seq<Override>)
    ensures var s := ExpectedStats(airports, timezones, overrides);
      s.matched + s.fallback + s.overridden == |airports|
  {
    SourcesPartition(airports.Keys, OverrideLookup(overrides), timezones);
  }

  lemma SourcesPartition(keys: set<string>, lookup: map<string, Override>, timezones: map<string, string>)
    ensures |WithSource(keys, FromOverride, lookup, timezones)| + |WithSource(keys, FromTimezones, lookup, timezones)|
            + |WithSource(keys, FromFallback, lookup, timezones)| == |keys|
  {
    var o, m, f := WithSource(keys, FromOverride, lookup, timezones), WithSource(keys, FromTimezones, lookup, timezones),
                   WithSource(keys, FromFallback, lookup, timezones);
    assert o !! m by { SourcesDisjoint(keys, FromOverride, FromTimezones, lookup, timezones); }
    DisjointUnionSize(o, m);
    assert o + m !! f by {
      SourcesDisjoint(keys, FromOverride, FromFallback, lookup, timezones);
      SourcesDisjoint(keys, FromTimezones, FromFallback, lookup, timezones);
    }
    DisjointUnionSize(o + m, f);
    assert keys == o + m + f by { SourcesCover(keys, lookup, timezones); }
  }

  lemma SourcesDisjoint(keys: set<string>, s1: TimezoneSource, s2: TimezoneSource,
                        lookup: map<string, Override>, timezones: map<string, string>)
    requires s1 != s2
    ensures WithSource(keys, s1, lookup, timezones) !! WithSource(keys, s2, lookup, timezones)
  {
  }

  lemma SourcesCover(keys: set<string>, lookup: map<string, Override>, timezones: map<string, string>)
    ensures keys == WithSource(keys, FromOverride, lookup, timezones) + WithSource(keys, FromTimezones, lookup, timezones)
                    + WithSource(keys, FromFallback, lookup, timezones)
  {
    forall k | k in keys
      ensures k in WithSource(keys, SourceOf(k, lookup, timezones), lookup, timezones)
    {
    }
  }

  /** The registry holds one record per primary code plus one per
      appended override: `total_count` equals the sum of all counters. */
  lemma RegistrySize(r: seq<Entry>, airports: map<string, Airport>, timezones: map<string, string>,
                     overrides: seq<Override>, fallback: string -> string)
    requires IsRegistryFor(r, airports, timezones, overrides, fallback)
    ensures var s := ExpectedStats(airports, timezones, overrides);
      |r| == s.matched + s.fallback + s.overridden + s.overrides
  {
    StatsPartitionPrimary(airports, timezones, overrides);
  }

  /** The registry specification leaves no freedom: whatever order the
      primary dict is walked in, the result is the same list. */
  lemma RegistryIsDetermined(r1: seq<Entry>, r2: seq<Entry>, airports: map<string, Airport>,
                             timezones: map<string, string>, overrides: seq<Override>, fallback: string -> string)
    requires IsRegistryFor(r1, airports, timezones, overrides, fallback)
    requires IsRegistryFor(r2, airports, timezones, overrides, fallback)
    ensures r1 == r2
  {
    SortedWithSameGroupsEqual(r1, r2);
  }

  /** Every record in the registry is either the primary record of its
      code or an appended override record. */
  lemma RegistryMember(r: seq<Entry>, airports: map<string, Airport>, timezones: map<string, string>,
                       overrides: seq<Override>, fallback: string -> string, i: int)
    requires IsRegistryFor(r, airports, timezones, overrides, fallback)
    requires 0 <= i < |r|
    ensures r[i].icao in airports ==>
      r[i] == PrimaryEntry(r[i].icao, airports[r[i].icao], OverrideLookup(overrides), timezones, fallback)
    ensures r[i].icao !in airports ==> r[i] in AddedEntries(overrides, airports.Keys)
  {
    var k := r[i].icao;
    WithIcaoMembers(r, k);
    assert r[i] in WithIcao(r, k);
    WithIcaoMembers(AddedEntries(overrides, airports.Keys), k);
  }

  /** `j` is the last override naming `k`. */
  predicate LastOverrideFor(overrides: seq<Override>, k: string, j: int) {
    && 0 <= j < |overrides| && overrides[j].icao == Some(k)
    && forall l :: j < l < |overrides| ==> overrides[l].icao != Some(k)
  }

  /** Where each field of a record comes from. For a primary code named by
      an override, the last such override gives name, country and timezone
      where it has them, the name and country falling back to the primary
      feed and the timezone to UTC. For a primary code no override names,
      name and country are the primary feed's and the timezone is the
      secondary map's, or the country fallback's. Any other code is an
      override's own fields, with '', '' and UTC as defaults. */
  lemma RegistryRecordFields(r: seq<Entry>, airports: map<string, Airport>, timezones: map<string, string>,
                             overrides: seq<Override>, fallback: string -> string, i: int)
    requires IsRegistryFor(r, airports, timezones, overrides, fallback)
    requires 0 <= i < |r|
    ensures var k := r[i].icao;
      k in airports ==> forall j :: LastOverrideFor(overrides, k, j) ==>
        && r[i].name == overrides[j].name.GetOr(airports[k].name)
        && r[i].country == overrides[j].country.GetOr(airports[k].countryCode)
        && r[i].timezone == overrides[j].timezone.GetOr(DefaultTimezone)
    ensures var k := r[i].icao;
      k in airports && (forall j :: 0 <= j < |overrides| ==> overrides[j].icao != Some(k)) ==>
        && r[i].name == airports[k].name
        && r[i].country == airports[k].countryCode
        && r[i].timezone == (if k in timezones && timezones[k] != "" then timezones[k] else fallback(airports[k].countryCode))
    ensures var k := r[i].icao;
      k !in airports ==>
        exists j :: && 0 <= j < |overrides| && overrides[j].icao == Some(k)
                    && r[i].name == overrides[j].name.GetOr("")
                    && r[i].country == overrides[j].country.GetOr("")
                    && r[i].timezone == overrides[j].timezone.GetOr(DefaultTimezone)
  {
    var k := r[i].icao;
    RegistryMember(r, airports, timezones, overrides, fallback, i);
    if k in airports {
      PrimaryEntryFromOverrides(k, airports[k], overrides, timezones, fallback);
    } else {
      var j := OverrideOf(overrides, airports.Keys, r[i]);
    }
  }

  /** The primary record of `k`, stated through the override list rather
      than the lookup built from it. */
  lemma PrimaryEntryFromOverrides(k: string, a: Airport, overrides: seq<Override>,
                                  timezones: map<string, string>, fallback: string -> string)
    ensures var e := PrimaryEntry(k, a, OverrideLookup(overrides), timezones, fallback);
      forall j :: LastOverrideFor(overrides, k, j) ==>
        && e.name == overrides[j].name.GetOr(a.name)
        && e.country == overrides[j].country.GetOr(a.countryCode)
        && e.timezone == overrides[j].timezone.GetOr(DefaultTimezone)
    ensures var e := PrimaryEntry(k, a, OverrideLookup(overrides), timezones, fallback);
      (forall j :: 0 <= j < |overrides| ==> overrides[j].icao != Some(k)) ==>
        && e.name == a.name
        && e.country == a.countryCode
        && e.timezone == (if k in timezones && timezones[k] != "" then timezones[k] else fallback(a.countryCode))
  {
    var lookup := OverrideLookup(overrides);
    LastOverrideWins(overrides, k);
    if k in lookup {
      var j0 :| 0 <= j0 < |overrides| && lookup[k] == overrides[j0] && LastOverrideFor(overrides, k, j0);
      forall j | LastOverrideFor(overrides, k, j) ensures j == j0 {
        LastIsUnique(overrides, k, j, j0);
      }
    }
  }

  /** Only one override is the last to name a code. */
  lemma LastIsUnique(overrides: seq<Override>, k: string, j1: int, j2: int)
    requires LastOverrideFor(overrides, k, j1) && LastOverrideFor(overrides, k, j2)
    ensures j1 == j2
  {
  }

  /** An overridden code never takes its timezone from the secondary map
      or from the fallback table. */
  lemma OverrideShadowsTimezoneSources(icao: string, a: Airport, overrides: seq<Override>,
                                       tz1: map<string, string>, tz2: map<string, string>,
                                       fb1: string -> string, fb2: string -> string)
    requires icao in OverrideLookup(overrides)
    ensures PrimaryEntry(icao, a, OverrideLookup(overrides), tz1, fb1) ==
            PrimaryEntry(icao, a, OverrideLookup(overrides), tz2, fb2)
    ensures PrimaryEntry(icao, a, OverrideLookup(overrides), tz1, fb1).timezone ==
            OverrideLookup(overrides)[icao].timezone.GetOr(DefaultTimezone)
  {
  }

  /** No two overrides name one code that is not among `existing`. */
  predicate DistinctNewOverrideIcaos(overrides: seq<Override>, existing: set<string>) {
    forall i, j :: 0 <= i < j < |overrides| && overrides[i].icao.Some? && overrides[i].icao.value !in existing ==>
      overrides[i].icao != overrides[j].icao
  }

  /** The appended records have distinct codes exactly when no two
      overrides name one new code. */
  lemma {:induction false} AddedEntriesDistinct(overrides: seq<Override>, existing: set<string>)
    ensures DistinctIcaos(AddedEntries(overrides, existing)) <==> DistinctNewOverrideIcaos(overrides, existing)
  {
    if !DistinctNewOverrideIcaos(overrides, existing) {
      var i, j :| 0 <= i < j < |overrides| && overrides[i].icao.Some? && overrides[i].icao.value !in existing &&
                  overrides[i].icao == overrides[j].icao;
      var p, q := AppendedPositions(overrides, existing, i, j);
    } else if overrides != [] {
      var init := overrides[..|overrides| - 1];
      var o := overrides[|overrides| - 1];
      assert DistinctNewOverrideIcaos(init, existing) by {
        forall i, j | 0 <= i < j < |init| && init[i].icao.Some? && init[i].icao.value !in existing
          ensures init[i].icao != init[j].icao
        {
          assert init[i] == overrides[i] && init[j] == overrides[j];
        }
      }
      AddedEntriesDistinct(init, existing);
      var r := AddedEntries(init, existing);
      if o.icao.Some? && o.icao.value !in existing {
        var s := r + [NewEntry(o)];
        forall i, j | 0 <= i < j < |s| ensures s[i].icao != s[j].icao {
          if j == |r| {
            var m := OverrideOf(init, existing, r[i]);
            assert overrides[m] == init[m];
          }
        }
      }
    }
  }

  /** Every override whose code is not among `existing` is appended, as
      its own fields with the defaults '', '' and UTC. */
  lemma NewOverrideAppended(overrides: seq<Override>, existing: set<string>, j: int)
    requires 0 <= j < |overrides| && overrides[j].icao.Some? && overrides[j].icao.value !in existing
    ensures NewEntry(overrides[j]) in AddedEntries(overrides, existing)
  {
    var p := AppendedAt(overrides, existing, j);
  }

  /** Where the record of override `j` sits among the appended ones. */
  lemma {:induction false} AppendedAt(overrides: seq<Override>, existing: set<string>, j: int) returns (p: nat)
    requires 0 <= j < |overrides| && overrides[j].icao.Some? && overrides[j].icao.value !in existing
    ensures p < |AddedEntries(overrides, existing)| && AddedEntries(overrides, existing)[p] == NewEntry(overrides[j])
  {
    var init := overrides[..|overrides| - 1];
    AddedEntriesPrefix(overrides, existing);
    if j < |init| {
      assert init[j] == overrides[j];
      p := AppendedAt(init, existing, j);
    } else {
      p := |AddedEntries(init, existing)|;
      AddedEntriesLast(overrides, existing);
    }
  }

  /** Every appended record is the record of an override whose code is
      not among `existing`. */
  lemma AppendedFromOverride(overrides: seq<Override>, existing: set<string>, e: Entry)
    requires e in AddedEntries(overrides, existing)
    ensures exists j :: 0 <= j < |overrides| && overrides[j].icao.Some? && overrides[j].icao.value !in existing
                        && e == NewEntry(overrides[j])
  {
    var j := OverrideOf(overrides, existing, e);
  }

  /** The override whose record `e` is. */
  lemma {:induction false} OverrideOf(overrides: seq<Override>, existing: set<string>, e: Entry) returns (j: nat)
    requires e in AddedEntries(overrides, existing)
    ensures j < |overrides| && overrides[j].icao.Some? && overrides[j].icao.value !in existing
    ensures e == NewEntry(overrides[j])
  {
    var init := overrides[..|overrides| - 1];
    AddedEntriesLast(overrides, existing);
    if e in AddedEntries(init, existing) {
      j := OverrideOf(init, existing, e);
      assert overrides[j] == init[j];
    } else {
      j := |overrides| - 1;
    }
  }

  /** The records are appended in override order. */
  lemma AppendedInOrder(overrides: seq<Override>, existing: set<string>, i: int, j: int)
    requires 0 <= i < j < |overrides|
    requires overrides[i].icao.Some? && overrides[i].icao.value !in existing
    requires overrides[j].icao.Some? && overrides[j].icao.value !in existing
    ensures var r := AddedEntries(overrides, existing);
      exists p, q :: 0 <= p < q < |r| && r[p] == NewEntry(overrides[i]) && r[q] == NewEntry(overrides[j])
  {
    var p, q := AppendedPositions(overrides, existing, i, j);
  }

  /** The positions of the overrides naming `c`. */
  function Naming(overrides: seq<Override>, c: string): set<int> {
    set j | 0 <= j < |overrides| && overrides[j].icao == Some(c)
  }

  lemma NamingLast(overrides: seq<Override>, c: string)
    requires overrides != []
    ensures var n := |overrides| - 1;
      Naming(overrides, c) == Naming(overrides[..n], c) + (if overrides[n].icao == Some(c) then {n} else {})
  {
  }

  /** A code that is not a primary code gets one appended record per
      override naming it, no more and no fewer. */
  lemma {:induction false} AddedEntriesCount(overrides: seq<Override>, existing: set<string>, c: string)
    requires c !in existing
    ensures |WithIcao(AddedEntries(overrides, existing), c)| == |Naming(overrides, c)|
  {
    if overrides == [] {
      assert Naming(overrides, c) == {};
    } else {
      var n := |overrides| - 1;
      var init := overrides[..n];
      var o := overrides[n];
      AddedEntriesCount(init, existing, c);
      AddedEntriesLast(overrides, existing);
      var tail := if o.icao.Some? && o.icao.value !in existing then [NewEntry(o)] else [];
      WithIcaoAppend(AddedEntries(init, existing), tail, c);
      var here: set<int> := if o.icao == Some(c) then {n} else {};
      assert |WithIcao(tail, c)| == |here| by {
        if tail != [] {
          assert WithIcao(tail, c) == (if NewEntry(o).icao == c then [NewEntry(o)] else []) + WithIcao([], c);
        }
      }
      NamingLast(overrides, c);
      DisjointUnionSize(Naming(init, c), here);
    }
  }

  /** Where the records of overrides `i` and `j` sit, `i` before `j`. */
  lemma {:induction false} AppendedPositions(overrides: seq<Override>, existing: set<string>, i: int, j: int)
    returns (p: nat, q: nat)
    requires 0 <= i < j < |overrides|
    requires overrides[i].icao.Some? && overrides[i].icao.value !in existing
    requires overrides[j].icao.Some? && overrides[j].icao.value !in existing
    ensures var r := AddedEntries(overrides, existing);
      p < q < |r| && r[p] == NewEntry(overrides[i]) && r[q] == NewEntry(overrides[j])
  {
    var init := overrides[..|overrides| - 1];
    var r0 := AddedEntries(init, existing);
    assert init[i] == overrides[i];
    AddedEntriesPrefix(overrides, existing);
    if j == |overrides| - 1 {
      p := AppendedAt(init, existing, i);
      q := |r0|;
      AddedEntriesLast(overrides, existing);
    } else {
      assert init[j] == overrides[j];
      p, q := AppendedPositions(init, existing, i, j);
    }
  }

  /** The records of all but the last override lead the records of all. */
  lemma AddedEntriesPrefix(overrides: seq<Override>, existing: set<string>)
    requires overrides != []
    ensures var r0, r := AddedEntries(overrides[..|overrides| - 1], existing), AddedEntries(overrides, existing);
      |r0| <= |r| && forall p :: 0 <= p < |r0| ==> r[p] == r0[p]
  {
    AddedEntriesLast(overrides, existing);
  }

  /** The records the registry holds for one code. */
  lemma RegistryGroup(r: seq<Entry>, airports: map<string, Airport>, timezones: map<string, string>,
                      overrides: seq<Override>, fallback: string -> string, k: string)
    requires IsRegistryFor(r, airports, timezones, overrides, fallback)
    ensures k in airports ==>
      WithIcao(r, k) == [PrimaryEntry(k, airports[k], OverrideLookup(overrides), timezones, fallback)]
    ensures k !in airports ==> WithIcao(r, k) == WithIcao(AddedEntries(overrides, airports.Keys), k)
  {
  }

  /** The registry has distinct codes exactly when no two overrides name
      one code that is not a primary code. */
  lemma RegistryDistinct(r: seq<Entry>, airports: map<string, Airport>, timezones: map<string, string>,
                         overrides: seq<Override>, fallback: string -> string)
    requires IsRegistryFor(r, airports, timezones, overrides, fallback)
    ensures DistinctIcaos(r) <==> DistinctNewOverrideIcaos(overrides, airports.Keys)
  {
    var appended := AddedEntries(overrides, airports.Keys);
    AddedEntriesDistinct(overrides, airports.Keys);
    if DistinctNewOverrideIcaos(overrides, airports.Keys) {
      DistinctIcaosIff(appended);
      forall k ensures |WithIcao(r, k)| <= 1 {
        RegistryGroup(r, airports, timezones, overrides, fallback, k);
      }
      DistinctIcaosIff(r);
    } else {
      NewCodeRepeated(r, airports, timezones, overrides, fallback);
    }
  }

  /** A code repeated among the appended records is repeated in the registry. */
  lemma NewCodeRepeated(r: seq<Entry>, airports: map<string, Airport>, timezones: map<string, string>,
                        overrides: seq<Override>, fallback: string -> string)
    requires IsRegistryFor(r, airports, timezones, overrides, fallback)
    requires !DistinctIcaos(AddedEntries(overrides, airports.Keys))
    ensures !DistinctIcaos(r)
  {
    var appended := AddedEntries(overrides, airports.Keys);
    var i, j :| 0 <= i < j < |appended| && appended[i].icao == appended[j].icao;
    var k := appended[i].icao;
    WithIcaoOfRepeated(appended, i, j);
    RegistryGroup(r, airports, timezones, overrides, fallback, k);
    if DistinctIcaos(r) {
      DistinctAtMostOne(r, k);
    }
  }

  /** With no primary codes and the appended records already in code
      order, the registry is exactly the appended records. */
  lemma RegistryOfAppended(r: seq<Entry>, airports: map<string, Airport>, timezones: map<string, string>,
                           overrides: seq<Override>, fallback: string -> string)
    requires IsRegistryFor(r, airports, timezones, overrides, fallback)
    requires airports == map[] && SortedByIcao(AddedEntries(overrides, {}))
    ensures r == AddedEntries(overrides, {})
  {
    var appended := AddedEntries(overrides, {});
    assert airports.Keys == {};
    forall k ensures WithIcao(r, k) == WithIcao(appended, k) {
      RegistryGroup(r, airports, timezones, overrides, fallback, k);
    }
    SortedWithSameGroupsEqual(r, appended);
  }

  /** Two overrides for one new code are both appended, because the set of
      existing codes is computed once, before the appending starts. */
  lemma RepeatedNewOverrideDuplicates(r: seq<Entry>, timezones: map<string, string>, fallback: string -> string)
    requires IsRegistryFor(r, map[], timezones,
                           [Override(Some("ZZZZ"), Some("First"), None, None),
                            Override(Some("ZZZZ"), Some("Second"), None, None)], fallback)
    ensures |r| == 2 && r[0].icao == r[1].icao == "ZZZZ"
    ensures r == [Entry("ZZZZ", "First", "", "UTC"), Entry("ZZZZ", "Second", "", "UTC")]
    ensures !DistinctIcaos(r)
  {
    var overrides := [Override(Some("ZZZZ"), Some("First"), None, None),
                      Override(Some("ZZZZ"), Some("Second"), None, None)];
    var expected := [Entry("ZZZZ", "First", "", "UTC"), Entry("ZZZZ", "Second", "", "UTC")];
    TwoOverridesAppended(overrides);
    assert SortedByIcao(expected) by { LexLeReflexive("ZZZZ"); }
    RegistryOfAppended(r, map[], timezones, overrides, fallback);
  }

  /** The records the two example overrides append. */
  lemma TwoOverridesAppended(overrides: seq<Override>)
    requires overrides == [Override(Some("ZZZZ"), Some("First"), None, None),
                           Override(Some("ZZZZ"), Some("Second"), None, None)]
    ensures AddedEntries(overrides, {}) == [Entry("ZZZZ", "First", "", "UTC"), Entry("ZZZZ", "Second", "", "UTC")]
  {
    var first := overrides[..1];
    assert first == [overrides[0]] && first[..0] == [];
    AddedEntriesLast(first, {});
    AddedEntriesLast(overrides, {});
  }

  /** When the fallback table always answers and no override sets an empty
      timezone, every record has a non-empty timezone. */
  lemma TimezonesPopulated(r: seq<Entry>, airports: map<string, Airport>, timezones: map<string, string>,
                           overrides: seq<Override>, fallback: string -> string)
    requires IsRegistryFor(r, airports, timezones, overrides, fallback)
    requires forall c :: fallback(c) != ""
    requires forall i :: 0 <= i < |overrides| ==> overrides[i].timezone != Some("")
    ensures forall i :: 0 <= i < |r| ==> r[i].timezone != ""
  {
    forall i | 0 <= i < |r| ensures r[i].timezone != "" {
      RegistryMember(r, airports, timezones, overrides, fallback, i);
      var k := r[i].icao;
      var lookup := OverrideLookup(overrides);
      if k in airports && k in lookup {
        LastOverrideWins(overrides, k);
      }
      if k !in airports {
        AddedTimezones(overrides, airports.Keys);
      }
    }
  }

  lemma {:induction false} AddedTimezones(overrides: seq<Override>, existing: set<string>)
    requires forall i :: 0 <= i < |overrides| ==> overrides[i].timezone != Some("")
    ensures forall e :: e in AddedEntries(overrides, existing) ==> e.timezone != ""
  {
    if overrides != [] {
      var init := overrides[..|overrides| - 1];
      assert forall i :: 0 <= i < |init| ==> init[i] == overrides[i];
      AddedTimezones(init, existing);
    }
  }

  /** The staging document assembled by main(): the caller's version and
      timestamp, the registry, and its length as `total_count`. */
  function AssembleDocument(version: string, lastUpdated: string, aerodromes: seq<Entry>): (d: RegistryDoc)
    ensures d.totalCount == |d.aerodromes|
    ensures d.aerodromes == aerodromes && d.version == version && d.lastUpdated == lastUpdated
  {
    RegistryDoc(version, lastUpdated, |aerodromes|, aerodromes)
  }
}
