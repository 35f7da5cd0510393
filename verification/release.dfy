/** The release controller (release.py): check the staging document,
    promote it to production behind a backup and a release stamp, and roll
    production back to a chosen backup. The file system is a map from path
    to content together with the set of directories; clocks and console
    answers are parameters. */
module Release {
  import opened Wrappers
  import opened Text
  import opened JsonValues
  import opened Aerodromes
  import Sync

  const ProductionPath: string := "aerodromes.json"
  const StagingPath: string := "aerodromes-staging.json"
  const BackupDir: string := "backups"
  const BackupPrefix: string := "backups/aerodromes_backup_"
  const BackupSuffix: string := ".json"
  const RequiredFields: seq<string> := ["version", "last_updated", "total_count", "aerodromes"]
  const RequiredRecordFields: seq<string> := ["icao", "name", "country", "timezone"]
  const ReleasedAtField: string := "released_at"
  /** How many backups the rollback prompt offers. */
  const MaxOffered: nat := 5

  // ---------------------------------------------------------------------
  // validate_staging

  datatype KeyCheck = AllPresent | Missing(key: string) | TypeErrorRaised

  /** The loop `for field in required: if field not in data: ...`: the
      first absent key, in the order given. */
  function CheckKeys(container: Json, keys: seq<string>): (r: KeyCheck)
    ensures r == AllPresent <==> forall i :: 0 <= i < |keys| ==> Contains(container, keys[i]) == Some(true)
    ensures r.Missing? ==> exists j ::
              && 0 <= j < |keys| && keys[j] == r.key && Contains(container, keys[j]) == Some(false)
              && forall i :: 0 <= i < j ==> Contains(container, keys[i]) == Some(true)
    ensures r == TypeErrorRaised ==> keys != [] && Contains(container, keys[0]).None?
  {
    if keys == [] then AllPresent
    else
      match Contains(container, keys[0])
      case None => TypeErrorRaised
      case Some(false) => Missing(keys[0])
      case Some(true) =>
        var r := CheckKeys(container, keys[1..]);
        assert forall i :: 1 <= i < |keys| ==> keys[i] == keys[1..][i - 1];
        r
  }

  datatype StagingVerdict =
    | Passed
    | FileMissing
    | InvalidJson
    | MissingField(field: string)
    | NotAList
    | CountMismatch
    | MissingRecordField(field: string)
    /** An exception escapes the check: a TypeError (the document is not
        an object, or its first record cannot be searched), or the
        UnicodeDecodeError of a file that is not UTF-8. */
    | Raised

  /** validate_staging: the checks in order, stopping at the first failure;
      only the first record is looked at. */
  function CheckStaging(files: map<string, FileContent>, path: string): (v: StagingVerdict)
    ensures v == FileMissing <==> path !in files
    ensures v == InvalidJson <==> path in files && files[path].Unparsable?
    ensures path in files && files[path].Undecodable? ==> v == Raised
    ensures v == Passed ==> path in files && files[path].Parsed? && files[path].doc.JObj?
    ensures v.MissingField? ==> v.field in RequiredFields && Contains(files[path].doc, v.field) == Some(false)
    ensures v.MissingRecordField? ==> v.field in RequiredRecordFields
  {
    if path !in files then FileMissing
    else
      match files[path]
      case Unparsable => InvalidJson
      case Undecodable => Raised
      case Parsed(data) =>
        match CheckKeys(data, RequiredFields)
        case TypeErrorRaised => Raised
        case Missing(f) => MissingField(f)
        case AllPresent =>
          if !data.JObj? then Raised
          else
            assert Contains(data, RequiredFields[2]) == Some(true);
            assert Contains(data, RequiredFields[3]) == Some(true);
            var list := data.fields["aerodromes"];
            if !list.JArr? then NotAList
            else if !EqualsInt(data.fields["total_count"], |list.items|) then CountMismatch
            else if list.items == [] then Passed
            else
              match CheckKeys(list.items[0], RequiredRecordFields)
              case TypeErrorRaised => Raised
              case Missing(f) => MissingRecordField(f)
              case AllPresent => Passed
  }

  predicate HasAll(container: Json, keys: seq<string>) {
    forall i :: 0 <= i < |keys| ==> Contains(container, keys[i]) == Some(true)
  }

  /** The staging file passes exactly when it parses to an object holding
      the four fields, its `aerodromes` is a list whose length equals
      `total_count`, and the list is empty or its first record holds the
      four record fields. */
  lemma ValidateStagingIff(files: map<string, FileContent>, path: string)
    ensures CheckStaging(files, path) == Passed <==>
      && path in files && files[path].Parsed? && files[path].doc.JObj?
      && HasAll(files[path].doc, RequiredFields)
      && var fields := files[path].doc.fields;
         && "aerodromes" in fields && fields["aerodromes"].JArr?
         && "total_count" in fields && EqualsInt(fields["total_count"], |fields["aerodromes"].items|)
         && (fields["aerodromes"].items == [] || HasAll(fields["aerodromes"].items[0], RequiredRecordFields))
  {
    if path in files && files[path].Parsed? && files[path].doc.JObj? && HasAll(files[path].doc, RequiredFields) {
      assert Contains(files[path].doc, RequiredFields[2]) == Some(true);
      assert Contains(files[path].doc, RequiredFields[3]) == Some(true);
    }
  }

  /** A missing top-level field is reported before anything else is
      looked at, and it is the first missing one in the order
      version, last_updated, total_count, aerodromes. */
  lemma FirstMissingFieldReported(files: map<string, FileContent>, path: string, j: int)
    requires path in files && files[path].Parsed? && files[path].doc.JObj?
    requires 0 <= j < |RequiredFields| && RequiredFields[j] !in files[path].doc.fields
    requires forall i :: 0 <= i < j ==> RequiredFields[i] in files[path].doc.fields
    ensures CheckStaging(files, path) == MissingField(RequiredFields[j])
  {
    CheckKeysFirstMissing(files[path].doc, RequiredFields, j);
  }

  lemma {:induction false} CheckKeysFirstMissing(container: Json, keys: seq<string>, j: int)
    requires 0 <= j < |keys| && Contains(container, keys[j]) == Some(false)
    requires forall i :: 0 <= i < j ==> Contains(container, keys[i]) == Some(true)
    ensures CheckKeys(container, keys) == Missing(keys[j])
  {
    if j > 0 {
      forall i | 0 <= i < j - 1 ensures Contains(container, keys[1..][i]) == Some(true) {
        assert keys[1..][i] == keys[i + 1];
      }
      CheckKeysFirstMissing(container, keys[1..], j - 1);
    }
  }

  /** Records after the first are never inspected: replacing them by any
      records, keeping the count, does not change the verdict. */
  lemma OnlyFirstRecordChecked(fields: map<string, Json>, first: Json, rest1: seq<Json>, rest2: seq<Json>)
    requires |rest1| == |rest2|
    ensures CheckStaging(map[StagingPath := Parsed(JObj(fields["aerodromes" := JArr([first] + rest1)]))], StagingPath) ==
            CheckStaging(map[StagingPath := Parsed(JObj(fields["aerodromes" := JArr([first] + rest2)]))], StagingPath)
  {
    var d1 := JObj(fields["aerodromes" := JArr([first] + rest1)]);
    var d2 := JObj(fields["aerodromes" := JArr([first] + rest2)]);
    SameKeysSameCheck(d1, d2, RequiredFields);
  }

  lemma {:induction false} SameKeysSameCheck(a: Json, b: Json, keys: seq<string>)
    requires a.JObj? && b.JObj? && a.fields.Keys == b.fields.Keys
    ensures CheckKeys(a, keys) == CheckKeys(b, keys)
  {
    if keys != [] {
      SameKeysSameCheck(a, b, keys[1..]);
    }
  }

  /** An empty `aerodromes` list passes the record check: a document with
      no records and `total_count` 0 is accepted. */
  lemma EmptyListPasses(version: Json, lastUpdated: Json)
    ensures CheckStaging(map[StagingPath := Parsed(JObj(map["version" := version, "last_updated" := lastUpdated,
                                                               "total_count" := JNum(0), "aerodromes" := JArr([])]))],
                         StagingPath) == Passed
  {
  }

  /** A staging document assembled by the sync step passes validation. */
  lemma AssembledDocumentPasses(version: string, lastUpdated: string, aerodromes: seq<Entry>)
    ensures CheckStaging(map[StagingPath := Parsed(RegistryToJson(Sync.AssembleDocument(version, lastUpdated, aerodromes)))],
                         StagingPath) == Passed
  {
    var doc := RegistryToJson(Sync.AssembleDocument(version, lastUpdated, aerodromes));
    assert CheckKeys(doc, RequiredFields) == AllPresent;
    if aerodromes != [] {
      var first := doc.fields["aerodromes"].items[0];
      assert first == EntryToJson(aerodromes[0]);
      assert CheckKeys(first, RequiredRecordFields) == AllPresent;
    }
  }

  // ---------------------------------------------------------------------
  // backup_production, release_to_production

  function BackupPath(stamp: string): string {
    BackupPrefix + stamp + BackupSuffix
  }

  /** A path `backups/aerodromes_backup_*.json` matches: that prefix and
      suffix, and no slash in between (the glob's `*` stays inside the
      directory). */
  predicate IsBackupPath(p: string) {
    && |p| >= |BackupPrefix| + |BackupSuffix|
    && p[..|BackupPrefix|] == BackupPrefix
    && p[|p| - |BackupSuffix|..] == BackupSuffix
    && '/' !in p[|BackupPrefix|..|p| - |BackupSuffix|]
  }

  /** A backup never lands on the production or the staging path. */
  lemma BackupPathIsNotLive(stamp: string)
    ensures BackupPath(stamp) != ProductionPath && BackupPath(stamp) != StagingPath
  {
    assert |BackupPath(stamp)| >= |BackupPrefix| + |BackupSuffix| > |StagingPath| > |ProductionPath|;
  }

  /** Neither the production nor the staging file is ever taken for a
      backup. */
  lemma LivePathsAreNotBackups()
    ensures !IsBackupPath(ProductionPath) && !IsBackupPath(StagingPath)
  {
    assert |BackupPrefix| + |BackupSuffix| > |StagingPath| > |ProductionPath|;
  }

  /** A stamp without a slash gives a path the rollback glob matches. */
  lemma BackupPathMatches(stamp: string)
    requires '/' !in stamp
    ensures IsBackupPath(BackupPath(stamp))
  {
    ThreeParts(BackupPrefix, stamp, BackupSuffix);
  }

  lemma ThreeParts(a: string, b: string, c: string)
    ensures var s := a + b + c;
      s[..|a|] == a && s[|a|..|a| + |b|] == b && s[|a| + |b|..] == c
  {
    var s := a + b + c;
    assert s[..|a|] == a;
    assert s[|a|..|a| + |b|] == b;
  }

  /** `data['released_at'] = timestamp`. */
  function Stamp(fields: map<string, Json>, releasedAt: string): (r: map<string, Json>)
    ensures r.Keys == fields.Keys + {ReleasedAtField}
    ensures r[ReleasedAtField] == JStr(releasedAt)
    ensures forall k :: k in fields && k != ReleasedAtField ==> r[k] == fields[k]
  {
    fields[ReleasedAtField := JStr(releasedAt)]
  }

  /** Re-stamping replaces the previous stamp and nothing else. */
  lemma StampTwice(fields: map<string, Json>, first: string, second: string)
    ensures Stamp(Stamp(fields, first), second) == Stamp(fields, second)
  {
  }

  /** The answer to the confirmation prompt, stripped and lower-cased, is
      `yes` or `y`. */
  predicate IsYes(answer: string) {
    Lower(Strip(answer)) == "yes" || Lower(Strip(answer)) == "y"
  }

  datatype Rejection = StagingNotFound | ValidationFailed(verdict: StagingVerdict) | NotConfirmed

  datatype ReleaseOutcome = Released(backup: string) | ReleaseRejected(reason: Rejection)

  /** Why release_to_production stops before touching any file, if it does. */
  function ReleaseGate(files: map<string, FileContent>, force: bool, answer: string): (r: Option<Rejection>)
    ensures r.None? <==> CheckStaging(files, StagingPath) == Passed && (force || IsYes(answer))
    ensures StagingPath !in files ==> r == Some(StagingNotFound)
    ensures StagingPath in files && CheckStaging(files, StagingPath) != Passed ==>
      r == Some(ValidationFailed(CheckStaging(files, StagingPath)))
    ensures CheckStaging(files, StagingPath) == Passed && !force && !IsYes(answer) ==> r == Some(NotConfirmed)
  {
    if StagingPath !in files then Some(StagingNotFound)
    else if CheckStaging(files, StagingPath) != Passed then Some(ValidationFailed(CheckStaging(files, StagingPath)))
    else if !force && !IsYes(answer) then Some(NotConfirmed)
    else None
  }

  /** The store after backup_production. */
  function AfterBackup(files: map<string, FileContent>, stamp: string): map<string, FileContent> {
    if ProductionPath in files then files[BackupPath(stamp) := files[ProductionPath]] else files
  }

  /** The store after a release that passed the gate: the old production
      document survives in the new backup, production is the staging
      document plus its release stamp, and no other path changes. */
  function AfterRelease(files: map<string, FileContent>, stamp: string, releasedAt: string): (after: map<string, FileContent>)
    requires StagingPath in files && files[StagingPath].Parsed? && files[StagingPath].doc.JObj?
    ensures ProductionPath in files ==> BackupPath(stamp) in after && after[BackupPath(stamp)] == files[ProductionPath]
    ensures ProductionPath in after && after[ProductionPath] == Parsed(JObj(Stamp(files[StagingPath].doc.fields, releasedAt)))
    ensures StagingPath in after && after[StagingPath] == files[StagingPath]
    ensures forall p :: p in files && p != ProductionPath && p != BackupPath(stamp) ==> p in after && after[p] == files[p]
    ensures after.Keys == files.Keys + {ProductionPath} + (if ProductionPath in files then {BackupPath(stamp)} else {})
  {
    BackupPathIsNotLive(stamp);
    AfterBackup(files, stamp)[ProductionPath := Parsed(JObj(Stamp(files[StagingPath].doc.fields, releasedAt)))]
  }

  /** The released production document itself passes validation. */
  lemma ReleasedDocumentPasses(files: map<string, FileContent>, stamp: string, releasedAt: string)
    requires CheckStaging(files, StagingPath) == Passed
    ensures ProductionPath in AfterRelease(files, stamp, releasedAt)
    ensures CheckStaging(AfterRelease(files, stamp, releasedAt), ProductionPath) == Passed
  {
    var fields := files[StagingPath].doc.fields;
    var stamped := Stamp(fields, releasedAt);
    ValidateStagingIff(files, StagingPath);
    assert HasAll(JObj(stamped), RequiredFields) by {
      forall i | 0 <= i < |RequiredFields| ensures Contains(JObj(stamped), RequiredFields[i]) == Some(true) {
        assert Contains(files[StagingPath].doc, RequiredFields[i]) == Some(true);
      }
    }
    ValidateStagingIff(AfterRelease(files, stamp, releasedAt), ProductionPath);
  }

  // ---------------------------------------------------------------------
  // rollback_production: which backups are offered

  /** Every path the glob matches. */
  function BackupFiles(files: map<string, FileContent>): (r: set<string>)
    ensures forall p :: p in r <==> p in files && IsBackupPath(p)
  {
    set p | p in files && IsBackupPath(p)
  }

  predicate IsMax(m: string, s: set<string>) {
    m in s && forall x :: x in s ==> LexLe(x, m)
  }

  lemma {:induction false} MaxExists(s: set<string>)
    requires s != {}
    ensures exists m :: IsMax(m, s)
    decreases |s|
  {
    var y :| y in s;
    if s == {y} {
      LexLeReflexive(y);
      assert IsMax(y, s);
    } else {
      MaxExists(s - {y});
      var m :| IsMax(m, s - {y});
      LexLeTotal(y, m);
      if LexLe(y, m) {
        assert IsMax(m, s);
      } else {
        forall x | x in s ensures LexLe(x, y) {
          if x == y { LexLeReflexive(y); } else { LexLeTransitive(x, m, y); }
        }
        assert IsMax(y, s);
      }
    }
  }

  lemma MaxUnique(s: set<string>, a: string, b: string)
    requires IsMax(a, s) && IsMax(b, s)
    ensures a == b
  {
    LexLeAntisymmetric(a, b);
  }

  /** The greatest path in a non-empty set. */
  function MaxOf(s: set<string>): (m: string)
    requires s != {}
    ensures IsMax(m, s)
  {
    MaxExists(s);
    assert forall a, b :: IsMax(a, s) && IsMax(b, s) ==> a == b by {
      forall a, b | IsMax(a, s) && IsMax(b, s) ensures a == b { MaxUnique(s, a, b); }
    }
    var m :| IsMax(m, s); m
  }

  /** `sorted(paths, reverse=True)`: every path once, greatest first. */
  function SortedDescending(s: set<string>): (r: seq<string>)
    ensures |r| == |s|
    ensures forall x :: x in r <==> x in s
    ensures forall i, j :: 0 <= i < j < |r| ==> LexLt(r[j], r[i])
    decreases |s|
  {
    if s == {} then []
    else
      var m := MaxOf(s);
      var rest := SortedDescending(s - {m});
      PrependMax(s, m, rest);
      [m] + rest
  }

  /** The greatest path in front of the others, listed greatest first,
      lists them all greatest first. */
  lemma PrependMax(s: set<string>, m: string, rest: seq<string>)
    requires IsMax(m, s)
    requires |rest| == |s - {m}| && forall x :: x in rest <==> x in s - {m}
    requires forall i, j :: 0 <= i < j < |rest| ==> LexLt(rest[j], rest[i])
    ensures var r := [m] + rest;
      && |r| == |s| && (forall x :: x in r <==> x in s)
      && forall i, j :: 0 <= i < j < |r| ==> LexLt(r[j], r[i])
  {
    forall j | 0 <= j < |rest| ensures LexLt(rest[j], m) {
      assert rest[j] in s - {m};
      if LexLe(m, rest[j]) { LexLeAntisymmetric(m, rest[j]); }
    }
    var r := [m] + rest;
    forall i, j | 0 <= i < j < |r| ensures LexLt(r[j], r[i]) {
      assert r[j] == rest[j - 1];
      if i > 0 { assert r[i] == rest[i - 1]; }
    }
  }

  /** The backups in the order the prompt lists them. */
  function Candidates(files: map<string, FileContent>): seq<string> {
    SortedDescending(BackupFiles(files))
  }

  /** `len(backups[:5])` for `count` backups. */
  function Offered(count: nat): (n: nat)
    ensures n <= MaxOffered && n <= count
    ensures n == MaxOffered || n == count
  {
    if count < MaxOffered then count else MaxOffered
  }

  /** The first backup offered is the newest one: no matching path is
      greater. */
  lemma FirstCandidateIsGreatest(files: map<string, FileContent>)
    requires BackupFiles(files) != {}
    ensures Candidates(files) != [] && IsMax(Candidates(files)[0], BackupFiles(files))
  {
    var c := Candidates(files);
    assert c[0] in BackupFiles(files);
    forall x | x in BackupFiles(files) ensures LexLe(x, c[0]) {
      var j :| 0 <= j < |c| && c[j] == x;
      if j == 0 { LexLeReflexive(x); } else { LexLtImpliesLe(c[j], c[0]); }
    }
  }

  datatype Selection = Cancelled | NotANumber | OutOfRange | Chosen(index: nat)

  /** The answer to "Select backup to restore": `cancel` in any case, else
      an integer k with 1 <= k <= offered, selecting index k - 1. */
  function SelectBackup(choice: string, offered: nat): (s: Selection)
    ensures s.Chosen? ==> s.index < offered && ParseInt(Strip(choice)) == Some(s.index + 1)
    ensures Lower(Strip(choice)) == "cancel" <==> s == Cancelled
  {
    var c := Strip(choice);
    if Lower(c) == "cancel" then Cancelled
    else
      match ParseInt(c)
      case None => NotANumber
      case Some(k) => if k - 1 < 0 || k - 1 >= offered then OutOfRange else Chosen(k - 1)
  }

  /** An answer that reads as the number k selects the backup listed
      under k, and nothing when no backup is listed under k. */
  lemma SelectByNumber(choice: string, k: int, offered: nat)
    requires ParseInt(Strip(choice)) == Some(k)
    ensures SelectBackup(choice, offered) == if 1 <= k <= offered then Chosen(k - 1) else OutOfRange
  {
    NumberIsNotCancel(Strip(choice));
  }

  lemma NumberIsNotCancel(t: string)
    requires ParseInt(t).Some?
    ensures Lower(t) != "cancel"
  {
    assert IsDigit(t[0]) || t[0] == '+' || t[0] == '-';
    assert Lower(t)[0] == LowerChar(t[0]);
  }

  /** The number shown next to a backup, typed back, reads as that number. */
  lemma TypedNumberReads(k: nat)
    ensures ParseInt(Strip(NatToString(k))) == Some(k)
  {
    var s := NatToString(k);
    assert IsDigit(s[0]) && IsDigit(s[|s| - 1]);
    StripKeeps(s);
    ParseIntOfNatToString(k);
  }

  datatype RollbackRejection = NoBackupsDir | NoBackupFiles | BadSelection(selection: Selection) | RollbackNotConfirmed

  datatype RollbackOutcome = RolledBack(backup: string) | RollbackRejected(reason: RollbackRejection)

  /** What the two prompts decide, given the backups in the order listed:
      only one of the first five is ever restored, and only after a yes. */
  function Choose(backups: seq<string>, choice: string, confirm: string): (r: RollbackOutcome)
    ensures r.RolledBack? ==>
      && IsYes(confirm)
      && exists i :: 0 <= i < MaxOffered && i < |backups| && backups[i] == r.backup
  {
    match SelectBackup(choice, Offered(|backups|))
    case Chosen(i) => if IsYes(confirm) then RolledBack(backups[i]) else RollbackRejected(RollbackNotConfirmed)
    case sel => RollbackRejected(BadSelection(sel))
  }

  /** Answering k and then yes restores the k-th listed backup. */
  lemma ChooseByNumber(backups: seq<string>, choice: string, k: int, confirm: string)
    requires ParseInt(Strip(choice)) == Some(k) && 1 <= k <= Offered(|backups|) && IsYes(confirm)
    ensures Choose(backups, choice, confirm) == RolledBack(backups[k - 1])
  {
    SelectByNumber(choice, k, Offered(|backups|));
  }

  /** No number beyond five restores anything, however many backups
      exist. */
  lemma NothingBeyondFifth(backups: seq<string>, choice: string, k: int, confirm: string)
    requires ParseInt(Strip(choice)) == Some(k) && k > MaxOffered
    ensures Choose(backups, choice, confirm) == RollbackRejected(BadSelection(OutOfRange))
  {
    SelectByNumber(choice, k, Offered(|backups|));
  }

  /** Typing cancel, in any case and with any surrounding blanks, restores
      nothing. */
  lemma CancelRestoresNothing(backups: seq<string>, choice: string, confirm: string)
    requires Lower(Strip(choice)) == "cancel"
    ensures Choose(backups, choice, confirm) == RollbackRejected(BadSelection(Cancelled))
  {
  }

  /** What rollback_production decides for a store and the two answers. */
  function RollbackPlan(files: map<string, FileContent>, dirs: set<string>, choice: string, confirm: string)
    : (r: RollbackOutcome)
    ensures BackupDir !in dirs <==> r == RollbackRejected(NoBackupsDir)
    ensures BackupDir in dirs && BackupFiles(files) == {} <==> r == RollbackRejected(NoBackupFiles)
  {
    if BackupDir !in dirs then RollbackRejected(NoBackupsDir)
    else if Candidates(files) == [] then RollbackRejected(NoBackupFiles)
    else Choose(Candidates(files), choice, confirm)
  }

  /** A rollback restores an existing backup file, one of the five newest,
      and only when the backups directory exists and the answer is yes. */
  lemma RollbackRestoresBackup(files: map<string, FileContent>, dirs: set<string>, choice: string, confirm: string)
    ensures var r := RollbackPlan(files, dirs, choice, confirm);
      r.RolledBack? ==>
        && BackupDir in dirs && IsYes(confirm)
        && r.backup in files && IsBackupPath(r.backup)
        && exists i :: 0 <= i < MaxOffered && i < |Candidates(files)| && Candidates(files)[i] == r.backup
  {
    if BackupDir in dirs && Candidates(files) != [] {
      var r := RollbackPlan(files, dirs, choice, confirm);
      if r.RolledBack? {
        assert r.backup in Candidates(files);
      }
    }
  }

  /** With the directory present and at least k backups, answering k and
      then yes restores the k-th newest backup. */
  lemma RollbackByNumber(files: map<string, FileContent>, dirs: set<string>, choice: string, k: int, confirm: string)
    requires BackupDir in dirs && ParseInt(Strip(choice)) == Some(k) && 1 <= k <= Offered(|Candidates(files)|)
    requires IsYes(confirm)
    ensures RollbackPlan(files, dirs, choice, confirm) == RolledBack(Candidates(files)[k - 1])
  {
    ChooseByNumber(Candidates(files), choice, k, confirm);
  }

  // ---------------------------------------------------------------------
  // The store and the three operations that change it

  class FileStore {
    var files: map<string, FileContent>
    var dirs: set<string>

    /** Every backup file sits in the backups directory. */
    predicate Valid()
      reads this
    {
      forall p :: p in files && IsBackupPath(p) ==> BackupDir in dirs
    }

    constructor(files0: map<string, FileContent>, dirs0: set<string>)
      requires forall p :: p in files0 && IsBackupPath(p) ==> BackupDir in dirs0
      ensures Valid()
      ensures files == files0 && dirs == dirs0
    {
      files := files0;
      dirs := dirs0;
    }

    /** backup_production: copy production to a stamped backup, if there
        is a production file. */
    method BackupProduction(stamp: string) returns (backup: string)
      requires Valid()
      modifies this
      ensures Valid()
      ensures files == AfterBackup(old(files), stamp)
      ensures ProductionPath !in old(files) ==> backup == "" && dirs == old(dirs)
      ensures ProductionPath in old(files) ==> backup == BackupPath(stamp) && dirs == old(dirs) + {BackupDir}
    {
      if ProductionPath !in files {
        return "";
      }
      backup := BackupPath(stamp);
      dirs := dirs + {BackupDir};
      files := files[backup := files[ProductionPath]];
    }

    /** release_to_production. `answer` is what the confirmation prompt
        reads; `backupStamp` and `releasedAt` are the two clock readings. */
    method ReleaseToProduction(force: bool, answer: string, backupStamp: string, releasedAt: string)
      returns (outcome: ReleaseOutcome)
      requires Valid()
      modifies this
      ensures Valid()
      ensures ReleaseGate(old(files), force, answer).Some? ==>
        && outcome == ReleaseRejected(ReleaseGate(old(files), force, answer).value)
        && files == old(files) && dirs == old(dirs)
      ensures ReleaseGate(old(files), force, answer).None? ==>
        && outcome == Released(if ProductionPath in old(files) then BackupPath(backupStamp) else "")
        && files == AfterRelease(old(files), backupStamp, releasedAt)
        && dirs == (if ProductionPath in old(files) then old(dirs) + {BackupDir} else old(dirs))
    {
      if StagingPath !in files {
        return ReleaseRejected(StagingNotFound);
      }
      var verdict := CheckStaging(files, StagingPath);
      if verdict != Passed {
        return ReleaseRejected(ValidationFailed(verdict));
      }
      if !force {
        var response := Lower(Strip(answer));
        if response != "yes" && response != "y" {
          return ReleaseRejected(NotConfirmed);
        }
      }
      assert ReleaseGate(files, force, answer).None?;
      var backup := Promote(backupStamp, releasedAt);
      outcome := Released(backup);
    }

    /** The part of release_to_production after confirmation: back up
        production, copy staging over it, and stamp the copy. */
    method Promote(backupStamp: string, releasedAt: string) returns (backup: string)
      requires Valid()
      requires StagingPath in files && files[StagingPath].Parsed? && files[StagingPath].doc.JObj?
      modifies this
      ensures Valid()
      ensures files == AfterRelease(old(files), backupStamp, releasedAt)
      ensures ProductionPath !in old(files) ==> backup == "" && dirs == old(dirs)
      ensures ProductionPath in old(files) ==> backup == BackupPath(backupStamp) && dirs == old(dirs) + {BackupDir}
    {
      BackupPathIsNotLive(backupStamp);
      backup := BackupProduction(backupStamp);
      files := files[ProductionPath := files[StagingPath]];
      var data := files[ProductionPath].doc.fields;
      data := data[ReleasedAtField := JStr(releasedAt)];
      files := files[ProductionPath := Parsed(JObj(data))];
    }

    /** rollback_production. `choice` and `confirm` are the two answers
        read from the console. */
    method RollbackProduction(choice: string, confirm: string) returns (outcome: RollbackOutcome)
      requires Valid()
      modifies this
      ensures Valid()
      ensures outcome == RollbackPlan(old(files), old(dirs), choice, confirm)
      ensures outcome == RollbackRejected(NoBackupsDir) ==> BackupFiles(old(files)) == {}
      ensures dirs == old(dirs)
      ensures outcome.RollbackRejected? ==> files == old(files)
      ensures outcome.RolledBack? ==>
        outcome.backup in old(files) && files == old(files)[ProductionPath := old(files)[outcome.backup]]
    {
      if BackupDir !in dirs {
        return RollbackRejected(NoBackupsDir);
      }
      var backups := Candidates(files);
      if backups == [] {
        return RollbackRejected(NoBackupFiles);
      }
      assert RollbackPlan(files, dirs, choice, confirm) == Choose(backups, choice, confirm);
      var selection := SelectBackup(choice, Offered(|backups|));
      if !selection.Chosen? {
        return RollbackRejected(BadSelection(selection));
      }
      var selected := backups[selection.index];
      var answer := Lower(Strip(confirm));
      if answer != "yes" && answer != "y" {
        return RollbackRejected(RollbackNotConfirmed);
      }
      assert selected in BackupFiles(files);
      LivePathsAreNotBackups();
      files := files[ProductionPath := files[selected]];
      outcome := RolledBack(selected);
    }
  }
}
