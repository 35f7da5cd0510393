/** The aerodrome record, the registry document that carries a list of
    them, and the ordering the registry is published in: ascending by
    `icao`, as Python's stable `list.sort(key=lambda x: x['icao'])` leaves
    it. */
module Aerodromes {
  import opened Text
  import opened JsonValues

  /** One published registry record. */
  datatype Entry = Entry(icao: string, name: string, country: string, timezone: string)

  /** The registry document written to the staging file. */
  datatype RegistryDoc = RegistryDoc(
    version: string,
    lastUpdated: string,
    totalCount: int,
    aerodromes: seq<Entry>)

  function EntryToJson(e: Entry): Json {
    JObj(map["icao" := JStr(e.icao), "name" := JStr(e.name),
             "country" := JStr(e.country), "timezone" := JStr(e.timezone)])
  }

  /** The document as `json.dump` writes it and `json.load` reads it back. */
  function RegistryToJson(d: RegistryDoc): Json {
    JObj(map["version" := JStr(d.version),
             "last_updated" := JStr(d.lastUpdated),
             "total_count" := JNum(d.totalCount),
             "aerodromes" := JArr(seq(|d.aerodromes|, i requires 0 <= i < |d.aerodromes| => EntryToJson(d.aerodromes[i])))])
  }

  /** The ICAO codes of a record list, in order. */
  function IcaoCodes(s: seq<Entry>): (codes: seq<string>)
    ensures |codes| == |s|
    ensures forall i :: 0 <= i < |s| ==> codes[i] == s[i].icao
  {
    seq(|s|, i requires 0 <= i < |s| => s[i].icao)
  }

  /** No ICAO code occurs twice. */
  predicate DistinctIcaos(s: seq<Entry>) {
    forall i, j :: 0 <= i < j < |s| ==> s[i].icao != s[j].icao
  }

  /** The records of `s` whose code is `k`, in their order in `s`. */
  function WithIcao(s: seq<Entry>, k: string): (r: seq<Entry>)
    ensures |r| <= |s|
  {
    if s == [] then []
    else (if s[0].icao == k then [s[0]] else []) + WithIcao(s[1..], k)
  }

  /** The filter keeps exactly the records carrying `k`. */
  lemma {:induction false} WithIcaoMembers(s: seq<Entry>, k: string)
    ensures forall e :: e in WithIcao(s, k) <==> e in s && e.icao == k
  {
    if s != [] {
      WithIcaoMembers(s[1..], k);
      assert s == [s[0]] + s[1..];
    }
  }

  lemma {:induction false} WithIcaoNone(s: seq<Entry>, k: string)
    requires forall i :: 0 <= i < |s| ==> s[i].icao != k
    ensures WithIcao(s, k) == []
  {
    if s != [] {
      assert forall i :: 0 <= i < |s[1..]| ==> s[1..][i] == s[i + 1];
      WithIcaoNone(s[1..], k);
    }
  }

  lemma {:induction false} WithIcaoAppend(a: seq<Entry>, b: seq<Entry>, k: string)
    ensures WithIcao(a + b, k) == WithIcao(a, k) + WithIcao(b, k)
  {
    if a == [] {
      assert a + b == b;
    } else {
      var h := if a[0].icao == k then [a[0]] else [];
      assert (a + b)[0] == a[0];
      assert (a + b)[1..] == a[1..] + b;
      assert WithIcao(a + b, k) == h + WithIcao(a[1..] + b, k);
      WithIcaoAppend(a[1..], b, k);
      assert WithIcao(a, k) == h + WithIcao(a[1..], k);
      SeqAssoc(h, WithIcao(a[1..], k), WithIcao(b, k));
    }
  }

  /** Appending one record adds it to its own code's group only. */
  lemma WithIcaoSnoc(s: seq<Entry>, e: Entry)
    ensures forall k :: WithIcao(s + [e], k) == WithIcao(s, k) + (if e.icao == k then [e] else [])
  {
    forall k ensures WithIcao(s + [e], k) == WithIcao(s, k) + (if e.icao == k then [e] else []) {
      WithIcaoAppend(s, [e], k);
    }
  }

  /** Two records with the same code at different places both survive the filter. */
  lemma {:induction false} WithIcaoOfRepeated(s: seq<Entry>, i: int, j: int)
    requires 0 <= i < j < |s| && s[i].icao == s[j].icao
    ensures |WithIcao(s, s[i].icao)| >= 2
  {
    var k := s[i].icao;
    if i == 0 {
      assert s[j] in s[1..];
      WithIcaoMembers(s[1..], k);
      assert s[j] in WithIcao(s[1..], k);
    } else {
      WithIcaoOfRepeated(s[1..], i - 1, j - 1);
    }
  }

  /** Distinct codes exactly when no code is carried by two records. */
  lemma DistinctIcaosIff(s: seq<Entry>)
    ensures DistinctIcaos(s) <==> forall k :: |WithIcao(s, k)| <= 1
  {
    if DistinctIcaos(s) {
      forall k ensures |WithIcao(s, k)| <= 1 {
        DistinctAtMostOne(s, k);
      }
    }
    if !DistinctIcaos(s) {
      var i, j :| 0 <= i < j < |s| && s[i].icao == s[j].icao;
      WithIcaoOfRepeated(s, i, j);
    }
  }

  lemma {:induction false} DistinctAtMostOne(s: seq<Entry>, k: string)
    requires DistinctIcaos(s)
    ensures |WithIcao(s, k)| <= 1
  {
    if s != [] {
      assert DistinctIcaos(s[1..]) by {
        forall i, j | 0 <= i < j < |s[1..]| ensures s[1..][i].icao != s[1..][j].icao {
          assert s[1..][i] == s[i + 1] && s[1..][j] == s[j + 1];
        }
      }
      DistinctAtMostOne(s[1..], k);
      if s[0].icao == k {
        forall m | 0 <= m < |s[1..]| ensures s[1..][m].icao != k {
          assert s[1..][m] == s[m + 1];
        }
        WithIcaoNone(s[1..], k);
      }
    }
  }

  /** Ascending by `icao` under Python's string comparison. */
  predicate SortedByIcao(s: seq<Entry>) {
    forall i, j :: 0 <= i < j < |s| ==> LexLe(s[i].icao, s[j].icao)
  }

  /** Puts `e` into sorted `s` after every record whose code is not greater. */
  function InsertByIcao(e: Entry, s: seq<Entry>): (r: seq<Entry>)
    requires SortedByIcao(s)
    ensures multiset(r) == multiset(s) + multiset{e}
    ensures SortedByIcao(r)
    ensures forall k :: WithIcao(r, k) == WithIcao(s, k) + (if e.icao == k then [e] else [])
  {
    if s == [] then [e]
    else if LexLt(e.icao, s[0].icao) then
      InsertFront(e, s);
      [e] + s
    else
      var rest := InsertByIcao(e, s[1..]);
      InsertAfter(e, s, rest);
      [s[0]] + rest
  }

  lemma InsertFront(e: Entry, s: seq<Entry>)
    requires SortedByIcao(s) && s != [] && LexLt(e.icao, s[0].icao)
    ensures SortedByIcao([e] + s)
    ensures forall k :: WithIcao([e] + s, k) == WithIcao(s, k) + (if e.icao == k then [e] else [])
  {
    LexLtImpliesLe(e.icao, s[0].icao);
    forall j | 0 <= j < |s| ensures LexLt(e.icao, s[j].icao) {
      if j == 0 { LexLeReflexive(s[0].icao); } else { assert LexLe(s[0].icao, s[j].icao); }
      LexLtLe(e.icao, s[0].icao, s[j].icao);
    }
    forall j | 0 <= j < |s| ensures LexLe(e.icao, s[j].icao) && s[j].icao != e.icao {
      LexLtImpliesLe(e.icao, s[j].icao);
    }
    forall k ensures WithIcao([e] + s, k) == WithIcao(s, k) + (if e.icao == k then [e] else []) {
      assert ([e] + s)[1..] == s;
      if e.icao == k {
        WithIcaoNone(s, k);
      }
    }
  }

  lemma InsertAfter(e: Entry, s: seq<Entry>, rest: seq<Entry>)
    requires SortedByIcao(s) && s != [] && !LexLt(e.icao, s[0].icao)
    requires multiset(rest) == multiset(s[1..]) + multiset{e}
    requires SortedByIcao(rest)
    requires forall k :: WithIcao(rest, k) == WithIcao(s[1..], k) + (if e.icao == k then [e] else [])
    ensures multiset([s[0]] + rest) == multiset(s) + multiset{e}
    ensures SortedByIcao([s[0]] + rest)
    ensures forall k :: WithIcao([s[0]] + rest, k) == WithIcao(s, k) + (if e.icao == k then [e] else [])
  {
    HeadBelowRest(e, s, rest);
    ConsSorted(s[0], rest);
    ConsMultiset(e, s, rest);
    forall k ensures WithIcao([s[0]] + rest, k) == WithIcao(s, k) + (if e.icao == k then [e] else []) {
      ConsWithIcao(e, s, rest, k);
    }
  }

  lemma ConsMultiset(e: Entry, s: seq<Entry>, rest: seq<Entry>)
    requires s != []
    requires multiset(rest) == multiset(s[1..]) + multiset{e}
    ensures multiset([s[0]] + rest) == multiset(s) + multiset{e}
  {
    assert s == [s[0]] + s[1..];
  }

  lemma ConsWithIcao(e: Entry, s: seq<Entry>, rest: seq<Entry>, k: string)
    requires s != []
    requires WithIcao(rest, k) == WithIcao(s[1..], k) + (if e.icao == k then [e] else [])
    ensures WithIcao([s[0]] + rest, k) == WithIcao(s, k) + (if e.icao == k then [e] else [])
  {
    var c := [s[0]] + rest;
    var h := if s[0].icao == k then [s[0]] else [];
    var t := if e.icao == k then [e] else [];
    assert c[0] == s[0] && c[1..] == rest;
    assert WithIcao(c, k) == h + WithIcao(rest, k);
    assert WithIcao(s, k) == h + WithIcao(s[1..], k);
    SeqAssoc(h, WithIcao(s[1..], k), t);
  }

  lemma SeqAssoc(x: seq<Entry>, y: seq<Entry>, z: seq<Entry>)
    ensures x + (y + z) == (x + y) + z
  {
  }

  lemma HeadBelowRest(e: Entry, s: seq<Entry>, rest: seq<Entry>)
    requires SortedByIcao(s) && s != [] && !LexLt(e.icao, s[0].icao)
    requires multiset(rest) == multiset(s[1..]) + multiset{e}
    ensures forall j :: 0 <= j < |rest| ==> LexLe(s[0].icao, rest[j].icao)
  {
    forall j | 0 <= j < |rest| ensures LexLe(s[0].icao, rest[j].icao) {
      assert rest[j] in multiset(rest);
      if rest[j] != e {
        assert rest[j] in multiset(s[1..]);
        var m :| 0 <= m < |s[1..]| && s[1..][m] == rest[j];
        assert s[m + 1] == rest[j];
      }
    }
  }

  lemma ConsSorted(x: Entry, rest: seq<Entry>)
    requires SortedByIcao(rest)
    requires forall j :: 0 <= j < |rest| ==> LexLe(x.icao, rest[j].icao)
    ensures SortedByIcao([x] + rest)
  {
    var r := [x] + rest;
    forall i, j | 0 <= i < j < |r| ensures LexLe(r[i].icao, r[j].icao) {
      if i > 0 { assert r[i] == rest[i - 1] && r[j] == rest[j - 1]; } else { assert r[j] == rest[j - 1]; }
    }
  }

  /** Python's stable sort by `icao`. */
  function SortByIcao(s: seq<Entry>): (r: seq<Entry>)
    ensures SortedByIcao(r)
    ensures multiset(r) == multiset(s)
    ensures forall k :: WithIcao(r, k) == WithIcao(s, k)
  {
    if s == [] then []
    else
      var init := s[..|s| - 1];
      var last := s[|s| - 1];
      assert s == init + [last];
      var r := InsertByIcao(last, SortByIcao(init));
      forall k ensures WithIcao(r, k) == WithIcao(s, k) {
        WithIcaoAppend(init, [last], k);
      }
      r
  }

  /** A sorted list is determined by what it holds under each code: two
      sorted lists with the same per-code subsequences are equal. */
  lemma {:induction false} SortedWithSameGroupsEqual(a: seq<Entry>, b: seq<Entry>)
    requires SortedByIcao(a) && SortedByIcao(b)
    requires forall k :: WithIcao(a, k) == WithIcao(b, k)
    ensures a == b
    decreases |a|
  {
    if a == [] {
      NoGroupsEmpty(b);
    } else if b == [] {
      NoGroupsEmpty(a);
    } else {
      SameGroupsSameHead(a, b);
      forall k ensures WithIcao(a[1..], k) == WithIcao(b[1..], k) {
        var h := if a[0].icao == k then [a[0]] else [];
        assert WithIcao(a, k) == h + WithIcao(a[1..], k);
        assert WithIcao(b, k) == h + WithIcao(b[1..], k);
        assert WithIcao(a[1..], k) == WithIcao(a, k)[|h|..];
        assert WithIcao(b[1..], k) == WithIcao(b, k)[|h|..];
      }
      SortedTail(a);
      SortedTail(b);
      SortedWithSameGroupsEqual(a[1..], b[1..]);
      assert a == [a[0]] + a[1..] && b == [b[0]] + b[1..];
    }
  }

  /** A list with nothing under any code is empty. */
  lemma NoGroupsEmpty(s: seq<Entry>)
    requires forall k :: WithIcao(s, k) == []
    ensures s == []
  {
    if s != [] {
      HeadGroup(s);
    }
  }

  lemma HeadGroup(s: seq<Entry>)
    requires s != []
    ensures |WithIcao(s, s[0].icao)| >= 1
  {
  }

  lemma SortedTail(a: seq<Entry>)
    requires SortedByIcao(a) && a != []
    ensures SortedByIcao(a[1..])
  {
    forall x, y | 0 <= x < y < |a[1..]| ensures LexLe(a[1..][x].icao, a[1..][y].icao) {
      assert a[1..][x] == a[x + 1] && a[1..][y] == a[y + 1];
    }
  }

  /** The code at the head of a sorted list is its least one. */
  lemma HeadIsLeast(a: seq<Entry>, e: Entry)
    requires SortedByIcao(a) && e in a
    ensures LexLe(a[0].icao, e.icao)
  {
    var j :| 0 <= j < |a| && a[j] == e;
    if j == 0 { LexLeReflexive(e.icao); }
  }

  lemma SameGroupsSameHead(a: seq<Entry>, b: seq<Entry>)
    requires SortedByIcao(a) && SortedByIcao(b) && a != [] && b != []
    requires WithIcao(a, a[0].icao) == WithIcao(b, a[0].icao)
    requires WithIcao(a, b[0].icao) == WithIcao(b, b[0].icao)
    ensures a[0] == b[0]
  {
    HeadInOther(a, b);
    HeadIsLeast(b, a[0]);
    HeadInOther(b, a);
    HeadIsLeast(a, b[0]);
    LexLeAntisymmetric(a[0].icao, b[0].icao);
    GroupHead(a);
    GroupHead(b);
  }

  lemma GroupHead(s: seq<Entry>)
    requires s != []
    ensures WithIcao(s, s[0].icao) != [] && WithIcao(s, s[0].icao)[0] == s[0]
  {
  }

  lemma HeadInOther(a: seq<Entry>, b: seq<Entry>)
    requires a != [] && WithIcao(a, a[0].icao) == WithIcao(b, a[0].icao)
    ensures a[0] in b
  {
    GroupHead(a);
    WithIcaoMembers(b, a[0].icao);
  }
}
