/** The list of migrations a runner works through, and one run over it
    (usbvault-server/migrations/migrate.go). */
module Migrations {

  datatype Migration = Migration(version: int, name: string, sql: string)

  // ---------- Order ----------

  /** Go's `<` on strings. */
  predicate LexLess(a: string, b: string) {
    if b == "" then false
    else if a == "" then true
    else if a[0] != b[0] then a[0] < b[0]
    else LexLess(a[1..], b[1..])
  }

  /** The strings agree up to `k`, where `a` ends first or has the smaller character. */
  predicate LessAt(a: string, b: string, k: nat) {
    && k <= |a| && k <= |b| && a[..k] == b[..k]
    && k < |b| && (k == |a| || a[k] < b[k])
  }

  /** The order is that of a dictionary: the first difference decides, and a prefix comes first. */
  lemma {:induction false} LexLessExactly(a: string, b: string)
    ensures LexLess(a, b) <==> exists k: nat :: LessAt(a, b, k)
  {
    if a == "" || b == "" || a[0] != b[0] {
      DecidedAtOnce(a, b);
    } else {
      LexLessExactly(a[1..], b[1..]);
      if LexLess(a, b) {
        var k: nat :| LessAt(a[1..], b[1..], k);
        LessAtShift(a, b, k);
        assert LessAt(a, b, k + 1);
      }
      if k: nat :| LessAt(a, b, k) {
        assert k > 0;
        LessAtShift(a, b, k - 1);
      }
    }
  }

  lemma DecidedAtOnce(a: string, b: string)
    requires a == "" || b == "" || a[0] != b[0]
    ensures LexLess(a, b) <==> LessAt(a, b, 0)
    ensures forall k: nat :: LessAt(a, b, k) ==> k == 0
  {
    forall k: nat | LessAt(a, b, k) ensures k == 0 {
      if k > 0 {
        SameStart(a, b, k);
      }
    }
  }

  lemma SameStart(a: string, b: string, k: nat)
    requires LessAt(a, b, k) && k > 0
    ensures a != "" && b != "" && a[0] == b[0]
  {
    assert a[0] == a[..k][0] == b[..k][0] == b[0];
  }

  lemma LessAtShift(a: string, b: string, k: nat)
    requires a != "" && b != "" && a[0] == b[0]
    ensures LessAt(a, b, k + 1) <==> LessAt(a[1..], b[1..], k)
  {
    if k < |a| && k < |b| {
      assert a[..k + 1] == [a[0]] + a[1..][..k];
      assert b[..k + 1] == [b[0]] + b[1..][..k];
      assert a[1..][..k] == a[..k + 1][1..];
      assert b[1..][..k] == b[..k + 1][1..];
    }
  }

  /** The comparison given to sort.Slice: by version, then by name. */
  predicate Before(a: Migration, b: Migration) {
    if a.version != b.version then a.version < b.version else LexLess(a.name, b.name)
  }

  lemma {:induction false} LexTotal(a: string, b: string)
    ensures LexLess(a, b) || LexLess(b, a) || a == b
    ensures !(LexLess(a, b) && LexLess(b, a))
    ensures !LexLess(a, a)
  {
    if a != "" {
      LexTotal(a[1..], if b == "" then "" else b[1..]);
      if b != "" && a[0] == b[0] && a[1..] == b[1..] {
        assert a == [a[0]] + a[1..] == [b[0]] + b[1..] == b;
      }
    }
  }

  lemma {:induction false} LexTransitive(a: string, b: string, c: string)
    requires LexLess(a, b) && LexLess(b, c)
    ensures LexLess(a, c)
  {
    if a != "" && a[0] == b[0] == c[0] {
      LexTransitive(a[1..], b[1..], c[1..]);
    }
  }

  /** What the result of sort.Slice satisfies; entries that compare equal may come in any order. */
  ghost predicate Sorted(s: seq<Migration>) {
    forall i, j :: 0 <= i < j < |s| ==> !Before(s[j], s[i])
  }

  ghost predicate IsSortOf(entries: seq<Migration>, sorted: seq<Migration>) {
    Sorted(sorted) && multiset(sorted) == multiset(entries)
  }

  // ---------- De-duplication ----------

  /** Keep the first entry of each version that is not in `seen`. */
  function DedupeFrom(s: seq<Migration>, seen: set<int>): seq<Migration> {
    if s == [] then []
    else if s[0].version in seen then DedupeFrom(s[1..], seen)
    else [s[0]] + DedupeFrom(s[1..], seen + {s[0].version})
  }

  method Dedupe(sorted: seq<Migration>) returns (deduped: seq<Migration>)
    ensures deduped == DedupeFrom(sorted, {})
  {
    var seen: set<int> := {};
    deduped := [];
    for i := 0 to |sorted|
      invariant DedupeFrom(sorted, {}) == deduped + DedupeFrom(sorted[i..], seen)
    {
      assert sorted[i..][1..] == sorted[i + 1..];
      ghost var rest := DedupeFrom(sorted[i + 1..], seen + {sorted[i].version});
      if sorted[i].version !in seen {
        assert deduped + ([sorted[i]] + rest) == deduped + [sorted[i]] + rest;
        seen := seen + {sorted[i].version};
        deduped := deduped + [sorted[i]];
      }
    }
    assert deduped + [] == deduped;
  }

  ghost predicate StrictlyIncreasing(s: seq<Migration>) {
    forall i, j :: 0 <= i < j < |s| ==> s[i].version < s[j].version
  }

  /** Some entry of the list has the version of `e` and no greater name. */
  ghost predicate Covered(list: seq<Migration>, e: Migration) {
    exists i :: 0 <= i < |list| && list[i].version == e.version && !LexLess(e.name, list[i].name)
  }

  lemma CoveredBy(list: seq<Migration>, e: Migration, i: nat)
    requires i < |list| && list[i].version == e.version && !LexLess(e.name, list[i].name)
    ensures Covered(list, e)
  {
    hide LexLess;
  }

  lemma CoverOf(list: seq<Migration>, e: Migration) returns (i: nat)
    requires Covered(list, e)
    ensures i < |list| && list[i].version == e.version && !LexLess(e.name, list[i].name)
  {
    hide LexLess;
    i :| 0 <= i < |list| && list[i].version == e.version && !LexLess(e.name, list[i].name);
  }

  /** Strictly increasing versions, only given entries, and for every given entry its version with a least name. */
  ghost predicate IsReadList(entries: seq<Migration>, list: seq<Migration>) {
    && StrictlyIncreasing(list)
    && (forall i :: 0 <= i < |list| ==> list[i] in entries)
    && (forall e :: e in entries ==> Covered(list, e))
  }

  lemma {:induction false} DedupeFacts(s: seq<Migration>, seen: set<int>)
    requires Sorted(s)
    ensures var d := DedupeFrom(s, seen);
      && StrictlyIncreasing(d)
      && (forall i :: 0 <= i < |d| ==> d[i] in s && d[i].version !in seen)
      && (forall e :: e in s && e.version !in seen ==> Covered(d, e))
    decreases |s|
  {
    hide LexLess, Covered;
    if s != [] {
      var head, rest := s[0], s[1..];
      HeadComesFirst(s);
      if head.version in seen {
        DedupeFacts(rest, seen);
      } else {
        var d', d := DedupeFrom(rest, seen + {head.version}), DedupeFrom(s, seen);
        DedupeFacts(rest, seen + {head.version});
        assert d == [head] + d';
        forall e | e in s && e.version !in seen ensures Covered(d, e) {
          if e.version == head.version {
            CoveredBy(d, e, 0);
          } else {
            var i := CoverOf(d', e);
            CoveredBy(d, e, i + 1);
          }
        }
      }
    }
  }

  lemma HeadComesFirst(s: seq<Migration>)
    requires s != [] && Sorted(s)
    ensures Sorted(s[1..])
    ensures forall x :: x in s ==> s[0].version <= x.version
    ensures forall x :: x in s && x.version == s[0].version ==> !LexLess(x.name, s[0].name)
  {
    LexTotal(s[0].name, s[0].name);
    hide LexLess;
    forall x | x in s[1..] ensures !Before(x, s[0]) {
      var j :| 0 <= j < |s[1..]| && s[1..][j] == x;
      assert s[j + 1] == x;
    }
    assert forall x :: x in s ==> x == s[0] || x in s[1..];
  }

  /** Whatever order sort.Slice leaves equal entries in, reading gives a list with the promised properties. */
  lemma SortThenDedupe(entries: seq<Migration>, sorted: seq<Migration>)
    requires IsSortOf(entries, sorted)
    ensures IsReadList(entries, DedupeFrom(sorted, {}))
  {
    hide LexLess, Covered;
    DedupeFacts(sorted, {});
    assert forall e :: e in sorted <==> e in multiset(sorted);
    assert forall e :: e in entries <==> e in multiset(entries);
  }

  // ---------- Every such list is a possible outcome ----------

  /** `Before`, preferring members of `list` among entries that compare equal. */
  predicate BeforePreferring(list: seq<Migration>, a: Migration, b: Migration) {
    Before(a, b) || (a.version == b.version && a.name == b.name && a in list && b !in list)
  }

  lemma PreferringIsOrder(list: seq<Migration>, a: Migration, b: Migration, c: Migration)
    ensures !(BeforePreferring(list, a, b) && BeforePreferring(list, b, a))
    ensures BeforePreferring(list, a, c) ==> BeforePreferring(list, a, b) || BeforePreferring(list, b, c)
  {
    LexTotal(a.name, b.name);
    LexTotal(b.name, c.name);
    LexTotal(a.name, c.name);
    if LexLess(c.name, b.name) && LexLess(b.name, a.name) {
      LexTransitive(c.name, b.name, a.name);
    }
  }

  function Insert(list: seq<Migration>, m: Migration, s: seq<Migration>): seq<Migration> {
    if s == [] || !BeforePreferring(list, s[0], m) then [m] + s else [s[0]] + Insert(list, m, s[1..])
  }

  function SortPreferring(list: seq<Migration>, entries: seq<Migration>): seq<Migration> {
    if entries == [] then [] else Insert(list, entries[0], SortPreferring(list, entries[1..]))
  }

  ghost predicate SortedPreferring(list: seq<Migration>, s: seq<Migration>) {
    forall i, j :: 0 <= i < j < |s| ==> !BeforePreferring(list, s[j], s[i])
  }

  lemma {:induction false} InsertKeepsOrder(list: seq<Migration>, m: Migration, s: seq<Migration>)
    requires SortedPreferring(list, s)
    ensures SortedPreferring(list, Insert(list, m, s))
    ensures multiset(Insert(list, m, s)) == multiset(s) + multiset{m}
  {
    hide BeforePreferring;
    var r := Insert(list, m, s);
    if s == [] {
    } else if !BeforePreferring(list, s[0], m) {
      forall x | x in s ensures !BeforePreferring(list, x, m) {
        PreferringIsOrder(list, x, s[0], m);
      }
    } else {
      InsertKeepsOrder(list, m, s[1..]);
      PreferringIsOrder(list, s[0], m, m);
      assert s == [s[0]] + s[1..];
      var tail := Insert(list, m, s[1..]);
      forall x | x in tail ensures !BeforePreferring(list, x, s[0]) {
        assert x in multiset(tail);
      }
    }
  }

  lemma {:induction false} SortPreferringSorts(list: seq<Migration>, entries: seq<Migration>)
    ensures SortedPreferring(list, SortPreferring(list, entries))
    ensures multiset(SortPreferring(list, entries)) == multiset(entries)
  {
    if entries != [] {
      SortPreferringSorts(list, entries[1..]);
      InsertKeepsOrder(list, entries[0], SortPreferring(list, entries[1..]));
      assert entries == [entries[0]] + entries[1..];
    }
  }

  /** Stands for the library call sort.Slice; only its contract is used. */
  method SortSlice(entries: seq<Migration>) returns (sorted: seq<Migration>)
    ensures IsSortOf(entries, sorted)
  {
    sorted := SortPreferring([], entries);
    SortPreferringSorts([], entries);
  }

  /** The sort and de-duplication of readMigrations, on the entries parsed from the directory. */
  method ReadMigrations(entries: seq<Migration>) returns (list: seq<Migration>)
    ensures IsReadList(entries, list)
  {
    var sorted := SortSlice(entries);
    list := Dedupe(sorted);
    SortThenDedupe(entries, sorted);
  }

  ghost predicate HasVersion(s: seq<Migration>, v: int) {
    exists i :: 0 <= i < |s| && s[i].version == v
  }

  /** Two lists with the same properties have the same versions, and the same names for them. */
  lemma ReadListsAgree(entries: seq<Migration>, list: seq<Migration>, other: seq<Migration>)
    requires IsReadList(entries, list) && IsReadList(entries, other)
    ensures |list| == |other|
    ensures forall i :: 0 <= i < |list| ==> list[i].version == other[i].version && list[i].name == other[i].name
  {
    hide LexLess, Covered, HasVersion;
    forall i | 0 <= i < |list| ensures HasVersion(other, list[i].version) {
      var j := Counterpart(entries, list, other, i);
      HasVersionAt(other, j);
    }
    forall i | 0 <= i < |other| ensures HasVersion(list, other[i].version) {
      var j := Counterpart(entries, other, list, i);
      HasVersionAt(list, j);
    }
    SameIncreasing(list, other);
    forall i | 0 <= i < |list| ensures list[i].name == other[i].name {
      var j := Counterpart(entries, list, other, i);
      var k := Counterpart(entries, other, list, i);
      assert j == i && k == i;
      LexTotal(list[i].name, other[i].name);
    }
  }

  lemma HasVersionAt(s: seq<Migration>, i: nat)
    requires i < |s|
    ensures HasVersion(s, s[i].version)
  {}

  lemma Counterpart(entries: seq<Migration>, list: seq<Migration>, other: seq<Migration>, i: nat) returns (j: nat)
    requires IsReadList(entries, list) && IsReadList(entries, other) && i < |list|
    ensures j < |other| && other[j].version == list[i].version && !LexLess(list[i].name, other[j].name)
  {
    hide LexLess, Covered;
    assert list[i] in entries;
    j := CoverOf(other, list[i]);
  }

  /** Increasing sequences with the same versions are equal in length and versions. */
  lemma {:induction false} SameIncreasing(a: seq<Migration>, b: seq<Migration>)
    requires StrictlyIncreasing(a) && StrictlyIncreasing(b)
    requires forall i :: 0 <= i < |a| ==> HasVersion(b, a[i].version)
    requires forall i :: 0 <= i < |b| ==> HasVersion(a, b[i].version)
    ensures |a| == |b| && forall i :: 0 <= i < |a| ==> a[i].version == b[i].version
    decreases |a|
  {
    hide HasVersion;
    EmptyTogether(a, b);
    EmptyTogether(b, a);
    if a != [] && b != [] {
      var x, y := |a| - 1, |b| - 1;
      LastVersionsEqual(a, b);
      DropLast(a, b, a[..x], b[..y]);
      DropLast(b, a, b[..y], a[..x]);
      SameIncreasing(a[..x], b[..y]);
      forall i | 0 <= i < |a| ensures a[i].version == b[i].version {
        if i < x {
          assert a[..x][i].version == b[..y][i].version;
        }
      }
    }
  }

  lemma EmptyTogether(a: seq<Migration>, b: seq<Migration>)
    requires forall i :: 0 <= i < |a| ==> HasVersion(b, a[i].version)
    ensures a != [] ==> b != []
  {
    if a != [] {
      assert HasVersion(b, a[0].version);
    }
  }

  lemma LastVersionsEqual(a: seq<Migration>, b: seq<Migration>)
    requires a != [] && b != [] && StrictlyIncreasing(a) && StrictlyIncreasing(b)
    requires forall i :: 0 <= i < |a| ==> HasVersion(b, a[i].version)
    requires forall i :: 0 <= i < |b| ==> HasVersion(a, b[i].version)
    ensures a[|a| - 1].version == b[|b| - 1].version
  {
    assert HasVersion(b, a[|a| - 1].version) && HasVersion(a, b[|b| - 1].version);
    var j :| 0 <= j < |b| && b[j].version == a[|a| - 1].version;
    var k :| 0 <= k < |a| && a[k].version == b[|b| - 1].version;
  }

  lemma DropLast(a: seq<Migration>, b: seq<Migration>, a': seq<Migration>, b': seq<Migration>)
    requires a != [] && b != [] && a[|a| - 1].version == b[|b| - 1].version
    requires StrictlyIncreasing(a) && a' == a[..|a| - 1] && b' == b[..|b| - 1]
    requires forall i :: 0 <= i < |a| ==> HasVersion(b, a[i].version)
    ensures forall i :: 0 <= i < |a'| ==> HasVersion(b', a'[i].version)
  {
    forall i | 0 <= i < |a'| ensures HasVersion(b', a'[i].version) {
      assert HasVersion(b, a[i].version);
      var j :| 0 <= j < |b| && b[j].version == a[i].version;
      assert b'[j].version == a[i].version;
    }
  }

  /** Every list with the promised properties is what reading returns for some order that sort.Slice may
      leave equal entries in: the description of the outcome is exact. */
  lemma EveryReadListIsPossible(entries: seq<Migration>, list: seq<Migration>) returns (sorted: seq<Migration>)
    requires IsReadList(entries, list)
    ensures IsSortOf(entries, sorted) && DedupeFrom(sorted, {}) == list
  {
    hide LexLess, Covered, DedupeFrom;
    sorted := SortPreferring(list, entries);
    SortPreferringSorts(list, entries);
    PreferringSorted(list, sorted);
    SortThenDedupe(entries, sorted);
    var d := DedupeFrom(sorted, {});
    ReadListsAgree(entries, d, list);
    forall i | 0 <= i < |d| ensures d[i] == list[i] {
      assert list[i] in entries;
      assert list[i] in multiset(entries);
      assert list[i] in sorted;
      FirstIsPreferred(list, sorted, d[i], i);
    }
  }

  lemma PreferringSorted(list: seq<Migration>, s: seq<Migration>)
    requires SortedPreferring(list, s)
    ensures Sorted(s)
  {
    hide LexLess;
  }

  /** In the preferring order the entry that de-duplication keeps is the one from the list. */
  lemma FirstIsPreferred(list: seq<Migration>, sorted: seq<Migration>, kept: Migration, i: nat)
    requires SortedPreferring(list, sorted) && StrictlyIncreasing(list)
    requires i < |list| && list[i] in sorted
    requires i < |DedupeFrom(sorted, {})| && kept == DedupeFrom(sorted, {})[i]
    requires kept.version == list[i].version && kept.name == list[i].name
    ensures kept == list[i]
  {
    hide LexLess, DedupeFrom;
    var p := DedupeTakesFirst(sorted, {}, i);
    var q :| 0 <= q < |sorted| && sorted[q] == list[i];
    if p < q {
      assert !BeforePreferring(list, sorted[q], sorted[p]);
      assert list[i] in list;
      var k :| 0 <= k < |list| && list[k] == kept;
      assert k == i;
    }
  }

  /** De-duplication keeps the first entry of a version. */
  lemma {:induction false} DedupeTakesFirst(s: seq<Migration>, seen: set<int>, i: nat) returns (p: nat)
    requires i < |DedupeFrom(s, seen)|
    ensures var d := DedupeFrom(s, seen);
      && d[i].version !in seen
      && p < |s| && s[p] == d[i] && forall q :: 0 <= q < p ==> s[q].version != d[i].version
    decreases |s|
  {
    if s[0].version in seen {
      p := DedupeTakesFirst(s[1..], seen, i);
    } else if i == 0 {
      return 0;
    } else {
      p := DedupeTakesFirst(s[1..], seen + {s[0].version}, i - 1);
    }
    var d := DedupeFrom(s, seen);
    forall q | 0 <= q < p + 1 ensures s[q].version != d[i].version {
      if q > 0 {
        assert s[1..][q - 1].version != d[i].version;
      }
    }
    p := p + 1;
  }

  ghost predicate HasLeastName(entries: seq<Migration>, e: Migration) {
    e in entries && forall x :: x in entries && x.version == e.version ==> !LexLess(x.name, e.name)
  }

  /** No two different entries share a version and that version's least name. */
  ghost predicate Unambiguous(entries: seq<Migration>) {
    forall e, f | HasLeastName(entries, e) && HasLeastName(entries, f)
      && e.version == f.version && e.name == f.name :: e == f
  }

  /** The list a directory gives does not depend on the sort if and only if it is unambiguous: "1_a.sql"
      next to "01_a.sql" makes the SQL of version 1 depend on it. */
  lemma OutcomeUniqueExactly(entries: seq<Migration>)
    ensures Unambiguous(entries) <==>
      forall a: seq<Migration>, b: seq<Migration> :: IsReadList(entries, a) && IsReadList(entries, b) ==> a == b
  {
    hide LexLess, HasLeastName, IsReadList;
    if Unambiguous(entries) {
      forall a: seq<Migration>, b: seq<Migration> | IsReadList(entries, a) && IsReadList(entries, b)
        ensures a == b
      {
        ReadListsAgree(entries, a, b);
        forall i | 0 <= i < |a| ensures a[i] == b[i] {
          ReadListHasLeast(entries, a, i);
          ReadListHasLeast(entries, b, i);
        }
      }
    } else {
      var e, f :| HasLeastName(entries, e) && HasLeastName(entries, f)
        && e.version == f.version && e.name == f.name && e != f;
      var list := SomeReadList(entries);
      var a, i := WithEntry(entries, list, e);
      var b, j := WithEntry(entries, list, f);
      ReadListsAgree(entries, a, b);
      VersionIsOnce(entries, b, i, j);
    }
  }

  /** The files "1_a.sql" and "01_a.sql" with different text are ambiguous. */
  lemma SameNameIsAmbiguous(version: int, name: string, sql: string, other: string)
    requires sql != other
    ensures !Unambiguous([Migration(version, name, sql), Migration(version, name, other)])
  {
    hide LexLess;
    var e, f := Migration(version, name, sql), Migration(version, name, other);
    LexTotal(name, name);
    assert HasLeastName([e, f], e) && HasLeastName([e, f], f);
  }

  lemma SomeReadList(entries: seq<Migration>) returns (list: seq<Migration>)
    ensures IsReadList(entries, list)
  {
    hide IsReadList;
    SortPreferringSorts([], entries);
    PreferringSorted([], SortPreferring([], entries));
    SortThenDedupe(entries, SortPreferring([], entries));
    list := DedupeFrom(SortPreferring([], entries), {});
  }

  lemma VersionIsOnce(entries: seq<Migration>, list: seq<Migration>, i: nat, j: nat)
    requires IsReadList(entries, list) && i < |list| && j < |list| && list[i].version == list[j].version
    ensures i == j
  {
    hide LexLess, Covered;
  }

  lemma ReadListHasLeast(entries: seq<Migration>, list: seq<Migration>, i: nat)
    requires IsReadList(entries, list) && i < |list|
    ensures HasLeastName(entries, list[i])
  {
    hide LexLess, Covered;
    assert list[i] in entries;
    forall x | x in entries && x.version == list[i].version ensures !LexLess(x.name, list[i].name) {
      var j := CoverOf(list, x);
      assert j == i;
    }
  }

  /** A read list can be made to contain any entry with the least name of its version. */
  lemma WithEntry(entries: seq<Migration>, list: seq<Migration>, e: Migration) returns (r: seq<Migration>, i: nat)
    requires IsReadList(entries, list) && HasLeastName(entries, e)
    ensures IsReadList(entries, r) && i < |r| && r[i] == e
  {
    hide LexLess, Covered;
    assert e in entries;
    i := CoverOf(list, e);
    r := list[i := e];
    forall x | x in entries ensures Covered(r, x) {
      var j := CoverOf(list, x);
      CoveredBy(r, x, j);
    }
  }

  /** Reading a list that was read before changes nothing. */
  lemma ReadingIsIdempotent(entries: seq<Migration>, list: seq<Migration>, again: seq<Migration>)
    requires IsReadList(entries, list) && IsReadList(list, again)
    ensures again == list
  {
    hide LexLess, Covered;
    forall i | 0 <= i < |list| ensures Covered(list, list[i]) {
      LexTotal(list[i].name, list[i].name);
      CoveredBy(list, list[i], i);
    }
    assert IsReadList(list, list);
    ReadListsAgree(list, list, again);
    forall i | 0 <= i < |list| ensures again[i] == list[i] {
      assert again[i] in list;
    }
  }

  // ---------- One run ----------

  /** The migrations still to be applied, in order. */
  function Pending(list: seq<Migration>, recorded: set<int>): seq<Migration> {
    if list == [] then []
    else if list[0].version in recorded then Pending(list[1..], recorded)
    else [list[0]] + Pending(list[1..], recorded)
  }

  ghost function Versions(s: seq<Migration>): set<int> {
    set m | m in s :: m.version
  }

  lemma {:induction false} PendingAppend(list: seq<Migration>, m: Migration, recorded: set<int>)
    ensures Pending(list + [m], recorded)
         == if m.version in recorded then Pending(list, recorded) else Pending(list, recorded) + [m]
  {
    if list == [] {
      assert list + [m] == [m];
      assert Pending([m][1..], recorded) == [];
    } else {
      assert (list + [m])[1..] == list[1..] + [m];
      PendingAppend(list[1..], m, recorded);
    }
  }

  lemma {:induction false} PendingPrefix(list: seq<Migration>, n: nat, recorded: set<int>)
    requires n <= |list|
    ensures Pending(list[..n], recorded) <= Pending(list, recorded)
    decreases |list| - n
  {
    if n == |list| {
      assert list[..n] == list;
    } else {
      PendingPrefix(list, n + 1, recorded);
      assert list[..n + 1] == list[..n] + [list[n]];
      PendingAppend(list[..n], list[n], recorded);
    }
  }

  /** What the schema_migrations table records, and the SQL committed so far. */
  class Database {
    var recorded: set<int>
    var log: seq<Migration>

    constructor ()
      ensures recorded == {} && log == []
    {
      recorded := {};
      log := [];
    }
  }

  /** One transaction: the SQL and the row are committed together or not at all. `fails` says whether it does. */
  method ApplyMigration(db: Database, m: Migration, fails: bool) returns (ok: bool)
    modifies db
    ensures ok == !fails
    ensures ok ==> db.log == old(db.log) + [m] && db.recorded == old(db.recorded) + {m.version}
    ensures !ok ==> db.log == old(db.log) && db.recorded == old(db.recorded)
  {
    if fails {
      return false;
    }
    db.log := db.log + [m];
    db.recorded := db.recorded + {m.version};
    return true;
  }

  /** What comes before the loop: everything worked, or creating the table, reading the directory or reading
      the applied versions failed. */
  datatype Setup = SetUp | TableFails | DirectoryUnreadable | VersionsUnreadable

  /** migrateLocked on its own: a run that returns nil has committed exactly the pending migrations in order;
      a run that fails before the loop has committed nothing, and one that fails in it those before the one
      that failed. */
  method MigrateLocked(db: Database, list: seq<Migration>, setup: Setup, fails: Migration -> bool)
    returns (ok: bool, applied: nat)
    requires StrictlyIncreasing(list)
    modifies db
    ensures var pending := Pending(list, old(db.recorded));
      && applied <= |pending|
      && db.log == old(db.log) + pending[..applied]
      && db.recorded == old(db.recorded) + Versions(pending[..applied])
      && (ok <==> setup == SetUp && forall m :: m in pending ==> !fails(m))
      && (ok ==> applied == |pending|)
      && (setup != SetUp ==> applied == 0)
      && (!ok && setup == SetUp ==> applied < |pending| && fails(pending[applied]))
  {
    hide Pending, Versions;
    var appliedVersions := db.recorded;
    ghost var pending := Pending(list, appliedVersions);
    ghost var done: seq<Migration> := [];
    PendingStart(list, appliedVersions);
    applied := 0;
    if setup == TableFails || setup == DirectoryUnreadable || setup == VersionsUnreadable {
      assert pending[..0] == [];
      return false, 0;
    }
    for n := 0 to |list|
      invariant done == Pending(list[..n], appliedVersions) && done <= pending
      invariant applied == |done|
      invariant db.log == old(db.log) + done
      invariant db.recorded == appliedVersions + Versions(done)
      invariant forall m :: m in done ==> !fails(m)
    {
      var migration := list[n];
      PendingStep(list, n, appliedVersions);
      if migration.version !in appliedVersions {
        VersionsAppend(done, migration);
        var committed := ApplyMigration(db, migration, fails(migration));
        if !committed {
          assert pending[..applied] == done;
          assert fails(pending[applied]) && pending[applied] in pending;
          return false, applied;
        }
        done := done + [migration];
        applied := applied + 1;
      }
    }
    assert list[..|list|] == list;
    assert pending[..applied] == done;
    return true, applied;
  }

  lemma PendingStart(list: seq<Migration>, recorded: set<int>)
    ensures Pending(list[..0], recorded) == [] && Versions([]) == {}
  {}

  lemma PendingStep(list: seq<Migration>, n: nat, recorded: set<int>)
    requires n < |list|
    ensures Pending(list[..n + 1], recorded) <= Pending(list, recorded)
    ensures Pending(list[..n + 1], recorded) == Pending(list[..n], recorded)
      + if list[n].version in recorded then [] else [list[n]]
  {
    assert list[..n + 1] == list[..n] + [list[n]];
    PendingAppend(list[..n], list[n], recorded);
    PendingPrefix(list, n + 1, recorded);
  }

  lemma VersionsAppend(s: seq<Migration>, m: Migration)
    ensures Versions(s + [m]) == Versions(s) + {m.version}
  {
    assert forall x :: x in s + [m] <==> x in s || x == m;
  }

  /** The pending count of GetStatus is the number of migrations a run would apply. */
  method CountPending(db: Database, list: seq<Migration>) returns (pending: nat)
    ensures pending == |Pending(list, db.recorded)|
  {
    pending := 0;
    for n := 0 to |list|
      invariant pending == |Pending(list[..n], db.recorded)|
    {
      assert list[..n + 1] == list[..n] + [list[n]];
      PendingAppend(list[..n], list[n], db.recorded);
      if list[n].version !in db.recorded {
        pending := pending + 1;
      }
    }
    assert list[..|list|] == list;
  }
}
