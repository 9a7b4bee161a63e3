/**
 * The content manager's document metadata service: the draft / published /
 * modified status of a stored version, the other locales of a document that
 * are available for the current status, the same-locale version at the
 * opposite status, and the metadata wrapper that combines them.
 *
 * A stored version is a `Row`. The store queries are not modelled: the rows
 * they return are parameters, and the batched lookup is returned as a query
 * description.
 */
module DocumentMetadata {
  import opened Wrappers
  import opened JsValues

  datatype Status = Draft | Published | Modified

  function StatusName(s: Status): string {
    match s
    case Draft => "draft"
    case Published => "published"
    case Modified => "modified"
  }

  /** Keys kept by the opposite-status projection. */
  const AvailableStatusFields: set<string> :=
    {"id", "locale", "updatedAt", "createdAt", "publishedAt", "createdBy", "updatedBy", "status"}

  /** Keys every available-locale entry keeps, on top of the validatable fields. */
  const AvailableLocalesFields: set<string> :=
    {"id", "locale", "updatedAt", "createdAt", "status", "publishedAt", "documentId"}

  /** Fields selected by the batched opposite-status lookup. */
  const ManyStatusFields: seq<string> := ["documentId", "locale", "updatedAt", "createdAt", "publishedAt"]

  /** Two updates closer than this many milliseconds count as one publish action. */
  const SameTimeThreshold: int := 500

  /** `v.publishedAt === null`: a missing key reads as `undefined`, which is not `null`. */
  predicate IsDraft(v: Row) {
    Get(v, "publishedAt") == Some(Null)
  }

  function LocaleOf(v: Row): Option<Value> {
    Get(v, "locale")
  }

  /** The status a version has on its own, without comparing it with a sibling. */
  function NaturalStatus(v: Row): Status {
    if IsDraft(v) then Draft else Published
  }

  function UpdatedAt(v: Row): Option<int> {
    Millis(Get(v, "updatedAt"))
  }

  /** `Math.abs(p - o) <= 500`, false when either side is NaN. */
  predicate WithinThreshold(p: Option<int>, o: Option<int>) {
    p.Some? && o.Some? && -SameTimeThreshold <= p.value - o.value <= SameTimeThreshold
  }

  /** `p > o`, false when either side is NaN. */
  predicate IsNewer(p: Option<int>, o: Option<int>) {
    p.Some? && o.Some? && p.value > o.value
  }

  /** `others.some(d => d.publishedAt !== null)` */
  predicate HasPublished(others: seq<Row>) {
    exists d <- others :: !IsDraft(d)
  }

  // ---------------------------------------------------------------------------
  // getStatus
  // ---------------------------------------------------------------------------

  /**
   * The status of `version` given the versions at the other publication
   * state. Only the first of `others` is compared; an absent list is `[]`.
   */
  function GetStatus(version: Row, others: seq<Row>): (r: Status)
    // no sibling: the version's own status, never modified
    ensures others == [] ==> r == NaturalStatus(version)
    // a published version is always reported as published
    ensures !IsDraft(version) ==> r == Published
    // a draft without a published sibling stays a draft
    ensures IsDraft(version) && !HasPublished(others) ==> r == Draft
    // updates within 500 ms of the first sibling are one publish action
    ensures (others != [] && (!IsDraft(version) || HasPublished(others))
             && WithinThreshold(UpdatedAt(version), UpdatedAt(others[0]))) ==> r == Published
    // and those are the only ways to be published: a draft more than 500 ms from its first
    // sibling, or with a NaN timestamp on either side, is never reported as published
    ensures r == Published <==>
              !IsDraft(version)
              || (others != [] && HasPublished(others) && WithinThreshold(UpdatedAt(version), UpdatedAt(others[0])))
    // modified exactly when a draft is more than 500 ms newer than the first sibling
    ensures r == Modified <==>
              IsDraft(version) && others != [] && HasPublished(others)
              && UpdatedAt(version).Some? && UpdatedAt(others[0]).Some?
              && UpdatedAt(version).value > UpdatedAt(others[0]).value + SameTimeThreshold
  {
    var current := NaturalStatus(version);
    if others == [] then
      current
    else if IsDraft(version) && !HasPublished(others) then
      Draft
    else
      var primaryTime := UpdatedAt(version);
      var otherTime := UpdatedAt(others[0]);
      if WithinThreshold(primaryTime, otherTime) then
        Published
      else if IsNewer(primaryTime, otherTime) && IsDraft(version) then
        Modified
      else
        current
  }

  /**
   * Only the first sibling's timestamp matters: two sibling lists with the
   * same head and the same "has a published row" answer give the same
   * status, whatever the later siblings' timestamps are.
   */
  lemma StatusComparesFirstSiblingOnly(version: Row, others: seq<Row>, others': seq<Row>)
    requires others != [] && others' != [] && others[0] == others'[0]
    requires HasPublished(others) == HasPublished(others')
    ensures GetStatus(version, others) == GetStatus(version, others')
  {
  }

  /** A newer published sibling further down the list does not prevent `modified`. */
  lemma StatusIgnoresNewestSibling()
    ensures var draft := map["publishedAt" := Null, "updatedAt" := Date(10000)];
            var older := map["publishedAt" := Date(0), "updatedAt" := Date(0)];
            var newer := map["publishedAt" := Date(20000), "updatedAt" := Date(20000)];
            GetStatus(draft, [older, newer]) == Modified
  {
    var older := map["publishedAt" := Date(0), "updatedAt" := Date(0)];
    var newer := map["publishedAt" := Date(20000), "updatedAt" := Date(20000)];
    assert !IsDraft(older) && older in [older, newer];
  }

  // ---------------------------------------------------------------------------
  // getAvailableLocales
  // ---------------------------------------------------------------------------

  /** The distinct locales of `rows`, in order of first appearance (lodash `groupBy` key order). */
  function LocaleKeys(rows: seq<Row>): seq<Option<Value>> {
    if rows == [] then []
    else
      var ks := LocaleKeys(rows[..|rows| - 1]);
      var k := LocaleOf(rows[|rows| - 1]);
      if k in ks then ks else ks + [k]
  }

  predicate Distinct<T(==)>(s: seq<T>) {
    forall i, j :: 0 <= i < j < |s| ==> s[i] != s[j]
  }

  /** The rows of `rows` with locale `k`, in order: one `groupBy` group. */
  function GroupOf(rows: seq<Row>, k: Option<Value>): seq<Row> {
    if rows == [] then []
    else
      var last := rows[|rows| - 1];
      GroupOf(rows[..|rows| - 1], k) + (if LocaleOf(last) == k then [last] else [])
  }

  /** `keys` without `k`: the object's key order after `delete`. */
  function RemoveKey(keys: seq<Option<Value>>, k: Option<Value>): seq<Option<Value>> {
    if keys == [] then []
    else
      var rest := RemoveKey(keys[..|keys| - 1], k);
      var last := keys[|keys| - 1];
      if last == k then rest else rest + [last]
  }

  /** The grouping keys are exactly the locales of the rows, each once. */
  lemma {:induction false} LocaleKeysMembers(rows: seq<Row>)
    ensures forall k :: k in LocaleKeys(rows) <==> exists v <- rows :: LocaleOf(v) == k
    ensures Distinct(LocaleKeys(rows))
  {
    if rows != [] {
      var init := rows[..|rows| - 1];
      LocaleKeysMembers(init);
      assert forall v <- rows :: v in init || v == rows[|rows| - 1];
      assert forall v <- init :: v in rows;
    }
  }

  /** A group holds exactly the rows of its locale. */
  lemma {:induction false} GroupOfMembers(rows: seq<Row>, k: Option<Value>)
    ensures forall v :: v in GroupOf(rows, k) <==> v in rows && LocaleOf(v) == k
  {
    if rows != [] {
      var init := rows[..|rows| - 1];
      GroupOfMembers(init, k);
      assert forall v <- rows :: v in init || v == rows[|rows| - 1];
      assert forall v <- init :: v in rows;
    }
  }

  /** `delete` removes exactly the deleted key and keeps the others distinct. */
  lemma {:induction false} RemoveKeyMembers(keys: seq<Option<Value>>, k: Option<Value>)
    ensures forall x :: x in RemoveKey(keys, k) <==> x in keys && x != k
    ensures Distinct(keys) ==> Distinct(RemoveKey(keys, k))
  {
    if keys != [] {
      var init := keys[..|keys| - 1];
      var last := keys[|keys| - 1];
      RemoveKeyMembers(init, k);
      assert forall x <- keys :: x in init || x == last;
      assert forall x <- init :: x in keys;
      if Distinct(keys) {
        assert Distinct(init) by {
          forall i, j | 0 <= i < j < |init| ensures init[i] != init[j] {
            assert init[i] == keys[i] && init[j] == keys[j];
          }
        }
        assert last !in init by {
          forall i | 0 <= i < |init| ensures init[i] != last {
            assert init[i] == keys[i];
          }
        }
      }
    }
  }

  /** The keys an available-locale entry keeps. */
  function KeysToKeep(validatableFields: seq<string>): set<string> {
    AvailableLocalesFields + set f | f in validatableFields
  }

  /** Every row of a group, with all keys outside `keep` removed. */
  function ProjectAll(rows: seq<Row>, keep: set<string>): (r: seq<Row>)
    ensures |r| == |rows|
    ensures forall i :: 0 <= i < |rows| ==> r[i] == Project(rows[i], keep)
  {
    seq(|rows|, i requires 0 <= i < |rows| => Project(rows[i], keep))
  }

  /** `versions[i]` is the first draft of `versions`. */
  predicate IsFirstDraftAt(versions: seq<Row>, i: int) {
    0 <= i < |versions| && IsDraft(versions[i]) && forall j :: 0 <= j < i ==> !IsDraft(versions[j])
  }

  /** `versions.find(v => v.publishedAt === null)` */
  function FirstDraft(versions: seq<Row>): (r: Option<Row>)
    ensures r.None? <==> forall v <- versions :: !IsDraft(v)
    ensures r.Some? ==> r.value in versions && IsDraft(r.value)
    // the draft found is the first one in the list
    ensures r.Some? ==> exists i :: IsFirstDraftAt(versions, i) && versions[i] == r.value
  {
    if versions == [] then None
    else if IsDraft(versions[0]) then
      assert IsFirstDraftAt(versions, 0);
      Some(versions[0])
    else
      var r := FirstDraft(versions[1..]);
      assert r.Some? ==> exists i :: IsFirstDraftAt(versions, i) && versions[i] == r.value by {
        if r.Some? {
          var i :| IsFirstDraftAt(versions[1..], i) && versions[1..][i] == r.value;
          assert IsFirstDraftAt(versions, i + 1);
        }
      }
      r
  }

  /** `versions.filter(v => v.id !== draft.id)` */
  function OthersThan(versions: seq<Row>, draft: Row): (r: seq<Row>)
    ensures forall v :: v in r <==> v in versions && Get(v, "id") != Get(draft, "id")
  {
    if versions == [] then []
    else
      assert forall v <- versions :: v == versions[0] || v in versions[1..];
      (if Get(versions[0], "id") != Get(draft, "id") then [versions[0]] else [])
      + OthersThan(versions[1..], draft)
  }

  /** Every row with another id is kept, as often as it occurs. */
  lemma {:induction false} OthersThanCounts(versions: seq<Row>, draft: Row, v: Row)
    ensures multiset(OthersThan(versions, draft))[v] ==
              if Get(v, "id") != Get(draft, "id") then multiset(versions)[v] else 0
  {
    if versions != [] {
      OthersThanCounts(versions[1..], draft, v);
      assert versions == [versions[0]] + versions[1..];
    }
  }

  /** `versions[i]` is the first row of `versions` whose id differs from the draft's. */
  predicate IsFirstOtherAt(versions: seq<Row>, draft: Row, i: int) {
    0 <= i < |versions| && Get(versions[i], "id") != Get(draft, "id")
    && forall j :: 0 <= j < i ==> Get(versions[j], "id") == Get(draft, "id")
  }

  /**
   * `filter` keeps the list's order: the first sibling `getStatus` compares
   * against is the first row with another id.
   */
  lemma {:induction false} OthersThanHead(versions: seq<Row>, draft: Row)
    ensures OthersThan(versions, draft) != [] ==>
              exists i :: IsFirstOtherAt(versions, draft, i) && OthersThan(versions, draft)[0] == versions[i]
  {
    if versions != [] {
      if Get(versions[0], "id") != Get(draft, "id") {
        assert IsFirstOtherAt(versions, draft, 0);
      } else {
        OthersThanHead(versions[1..], draft);
        if OthersThan(versions, draft) != [] {
          var i :| IsFirstOtherAt(versions[1..], draft, i) && OthersThan(versions[1..], draft)[0] == versions[1..][i];
          assert IsFirstOtherAt(versions, draft, i + 1);
        }
      }
    }
  }

  /** `{...draft, status}` */
  function WithStatus(draft: Row, s: Status): Row {
    draft["status" := Str(StatusName(s))]
  }

  /**
   * The entry one locale group contributes, given its projected rows:
   * without draft and publish its first row; otherwise its draft stamped
   * with its status against the group's other rows, or nothing when the
   * group has no draft.
   */
  function LocaleEntry(mapped: seq<Row>, hasDraftAndPublish: bool): Option<Row> {
    if !hasDraftAndPublish then
      if mapped == [] then None else Some(mapped[0])
    else
      match FirstDraft(mapped)
      case None => None
      case Some(draft) => Some(WithStatus(draft, GetStatus(draft, OthersThan(mapped, draft))))
  }

  /** The entries of the locale groups `keys`, in that order, absent ones dropped. */
  function Entries(keys: seq<Option<Value>>, all: seq<Row>, keep: set<string>, hasDraftAndPublish: bool): seq<Row> {
    if keys == [] then []
    else
      Entries(keys[..|keys| - 1], all, keep, hasDraftAndPublish)
      + ToSeq(LocaleEntry(ProjectAll(GroupOf(all, keys[|keys| - 1]), keep), hasDraftAndPublish))
  }

  /** What `getAvailableLocales` returns. */
  function AvailableLocales(version: Row, allVersions: seq<Row>, validatableFields: seq<string>,
                            hasDraftAndPublish: bool): seq<Row> {
    Entries(RemoveKey(LocaleKeys(allVersions), LocaleOf(version)), allVersions,
            KeysToKeep(validatableFields), hasDraftAndPublish)
  }

  /**
   * lodash `groupBy('locale', rows)`: an insertion-ordered dictionary, given
   * as its key order and its groups.
   */
  method GroupByLocale(rows: seq<Row>) returns (order: seq<Option<Value>>, groups: map<Option<Value>, seq<Row>>)
    ensures order == LocaleKeys(rows)
    ensures forall k :: k in groups <==> k in order
    ensures forall k <- order :: groups[k] == GroupOf(rows, k)
  {
    order, groups := [], map[];
    var i := 0;
    while i < |rows|
      invariant 0 <= i <= |rows|
      invariant order == LocaleKeys(rows[..i])
      invariant forall k :: k in groups <==> k in order
      invariant forall k <- order :: groups[k] == GroupOf(rows[..i], k)
    {
      var v := rows[i];
      var k := LocaleOf(v);
      GroupStep(rows, i);
      if k in groups {
        groups := groups[k := groups[k] + [v]];
      } else {
        NewLocaleHasNoGroup(rows[..i], k);
        order := order + [k];
        groups := groups[k := [v]];
      }
      i := i + 1;
    }
    assert rows[..i] == rows;
  }

  /** A locale that is not yet a key has an empty group. */
  lemma NewLocaleHasNoGroup(rows: seq<Row>, k: Option<Value>)
    requires k !in LocaleKeys(rows)
    ensures GroupOf(rows, k) == []
  {
    LocaleKeysMembers(rows);
    GroupOfMembers(rows, k);
  }

  /** What one more row does to the key order and to the groups. */
  lemma GroupStep(rows: seq<Row>, i: nat)
    requires i < |rows|
    ensures LocaleKeys(rows[..i + 1]) ==
              if LocaleOf(rows[i]) in LocaleKeys(rows[..i]) then LocaleKeys(rows[..i])
              else LocaleKeys(rows[..i]) + [LocaleOf(rows[i])]
    ensures forall k :: GroupOf(rows[..i + 1], k) ==
              GroupOf(rows[..i], k) + (if LocaleOf(rows[i]) == k then [rows[i]] else [])
  {
    assert rows[..i + 1][..i] == rows[..i];
    assert rows[..i + 1][i] == rows[i];
  }

  /**
   * `getAvailableLocales`: groups the rows by locale, deletes the caller's
   * locale from the dictionary, and maps every remaining group to its entry.
   */
  method GetAvailableLocales(version: Row, allVersions: seq<Row>, validatableFields: seq<string>,
                             hasDraftAndPublish: bool)
    returns (result: seq<Row>)
    ensures result == AvailableLocales(version, allVersions, validatableFields, hasDraftAndPublish)
  {
    var order, versionsByLocale := GroupByLocale(allVersions);

    // delete versionsByLocale[version.locale]
    var own := LocaleOf(version);
    versionsByLocale := versionsByLocale - {own};
    assert forall k <- RemoveKey(order, own) :: k in order && k != own by {
      RemoveKeyMembers(order, own);
    }
    order := RemoveKey(order, own);

    result := MapLocaleGroups(order, versionsByLocale, allVersions, KeysToKeep(validatableFields), hasDraftAndPublish);
  }

  /**
   * `async.map` over the remaining groups, in key order, then `filter(Boolean)`:
   * the entry of every group that contributes one.
   */
  method MapLocaleGroups(order: seq<Option<Value>>, groups: map<Option<Value>, seq<Row>>, allVersions: seq<Row>,
                         keep: set<string>, hasDraftAndPublish: bool)
    returns (result: seq<Row>)
    requires forall k <- order :: k in groups && groups[k] == GroupOf(allVersions, k)
    ensures result == Entries(order, allVersions, keep, hasDraftAndPublish)
  {
    result := [];
    var j := 0;
    while j < |order|
      invariant 0 <= j <= |order|
      invariant result == Entries(order[..j], allVersions, keep, hasDraftAndPublish)
    {
      var mapped := ProjectAll(groups[order[j]], keep);
      var entry := LocaleEntry(mapped, hasDraftAndPublish);
      assert order[..j + 1][..j] == order[..j];
      assert Entries(order[..j + 1], allVersions, keep, hasDraftAndPublish)
          == Entries(order[..j], allVersions, keep, hasDraftAndPublish) + ToSeq(entry);
      if entry.Some? {
        result := result + [entry.value];
      }
      j := j + 1;
    }
    assert order[..j] == order;
  }

  /** Every entry contributed by the group of `k` has locale `k` and only kept keys. */
  lemma EntryShape(all: seq<Row>, k: Option<Value>, keep: set<string>, hasDraftAndPublish: bool)
    requires AvailableLocalesFields <= keep
    ensures match LocaleEntry(ProjectAll(GroupOf(all, k), keep), hasDraftAndPublish)
            case None => true
            case Some(e) =>
              && LocaleOf(e) == k
              && e.Keys <= keep
              && (hasDraftAndPublish ==> IsDraft(e) && "status" in e)
  {
    var mapped := ProjectAll(GroupOf(all, k), keep);
    GroupOfMembers(all, k);
    forall m <- mapped
      ensures LocaleOf(m) == k && m.Keys <= keep
    {
      var i :| 0 <= i < |mapped| && mapped[i] == m;
      assert GroupOf(all, k)[i] in GroupOf(all, k);
    }
  }

  /** Every entry of `Entries(keys, …)` comes from one of `keys` and keeps only `keep`. */
  lemma {:induction false} EntriesShape(keys: seq<Option<Value>>, all: seq<Row>, keep: set<string>,
                                        hasDraftAndPublish: bool)
    requires AvailableLocalesFields <= keep
    ensures forall e <- Entries(keys, all, keep, hasDraftAndPublish) ::
              LocaleOf(e) in keys && e.Keys <= keep && (hasDraftAndPublish ==> IsDraft(e) && "status" in e)
  {
    if keys != [] {
      var init := keys[..|keys| - 1];
      var last := keys[|keys| - 1];
      EntriesShape(init, all, keep, hasDraftAndPublish);
      EntryShape(all, last, keep, hasDraftAndPublish);
      assert forall x <- init :: x in keys;
    }
  }

  /**
   * `getAvailableLocales` never returns the caller's own locale, keeps only the
   * whitelisted and validatable keys, and with draft and publish returns only
   * drafts, each stamped with a status.
   */
  lemma AvailableLocalesShape(version: Row, allVersions: seq<Row>, validatableFields: seq<string>,
                              hasDraftAndPublish: bool)
    ensures forall e <- AvailableLocales(version, allVersions, validatableFields, hasDraftAndPublish) ::
              && LocaleOf(e) != LocaleOf(version)
              && e.Keys <= AvailableLocalesFields + set f | f in validatableFields
              && (hasDraftAndPublish ==> IsDraft(e) && "status" in e)
  {
    var keys := RemoveKey(LocaleKeys(allVersions), LocaleOf(version));
    RemoveKeyMembers(LocaleKeys(allVersions), LocaleOf(version));
    EntriesShape(keys, allVersions, KeysToKeep(validatableFields), hasDraftAndPublish);
  }

  /** The group of `k` contributes an entry exactly when it has a draft, or always without draft and publish. */
  lemma EntryPresence(all: seq<Row>, k: Option<Value>, keep: set<string>, hasDraftAndPublish: bool)
    requires AvailableLocalesFields <= keep
    requires exists v <- all :: LocaleOf(v) == k
    ensures LocaleEntry(ProjectAll(GroupOf(all, k), keep), hasDraftAndPublish).Some? <==>
              exists v <- all :: LocaleOf(v) == k && (hasDraftAndPublish ==> IsDraft(v))
  {
    var group := GroupOf(all, k);
    var mapped := ProjectAll(group, keep);
    GroupOfMembers(all, k);
    var w :| w in all && LocaleOf(w) == k;
    assert w in group;
    LocaleEntryPresent(mapped, hasDraftAndPublish);
    if hasDraftAndPublish {
      assert "publishedAt" in keep;
      ProjectAllDrafts(group, keep);
      assert (exists v <- group :: IsDraft(v)) <==> exists v <- all :: LocaleOf(v) == k && IsDraft(v);
    }
  }

  /** A group contributes an entry when it has a draft, or, without draft and publish, any row. */
  lemma LocaleEntryPresent(mapped: seq<Row>, hasDraftAndPublish: bool)
    ensures LocaleEntry(mapped, hasDraftAndPublish).Some? <==>
              if hasDraftAndPublish then exists v <- mapped :: IsDraft(v) else mapped != []
  {
    if hasDraftAndPublish {
      assert LocaleEntry(mapped, hasDraftAndPublish).Some? <==> FirstDraft(mapped).Some?;
    }
  }

  /** Projecting rows to keys that include `publishedAt` keeps which of them are drafts. */
  lemma ProjectAllDrafts(rows: seq<Row>, keep: set<string>)
    requires "publishedAt" in keep
    ensures (exists v <- ProjectAll(rows, keep) :: IsDraft(v)) <==> exists v <- rows :: IsDraft(v)
  {
    var mapped := ProjectAll(rows, keep);
    if v :| v in rows && IsDraft(v) {
      var i :| 0 <= i < |rows| && rows[i] == v;
      assert IsDraft(mapped[i]) && mapped[i] in mapped;
    }
    if v :| v in mapped && IsDraft(v) {
      var i :| 0 <= i < |mapped| && mapped[i] == v;
      assert IsDraft(rows[i]) && rows[i] in rows;
    }
  }

  /** A locale `k` has an entry in `Entries(keys, …)` exactly when `k` is one of `keys` and its group qualifies. */
  lemma {:induction false} EntriesCoverage(keys: seq<Option<Value>>, all: seq<Row>, keep: set<string>,
                                           hasDraftAndPublish: bool, k: Option<Value>)
    requires AvailableLocalesFields <= keep
    requires forall x <- keys :: exists v <- all :: LocaleOf(v) == x
    ensures (exists e <- Entries(keys, all, keep, hasDraftAndPublish) :: LocaleOf(e) == k) <==>
              k in keys && exists v <- all :: LocaleOf(v) == k && (hasDraftAndPublish ==> IsDraft(v))
  {
    if keys != [] {
      var init := keys[..|keys| - 1];
      var last := keys[|keys| - 1];
      assert forall x <- init :: x in keys;
      assert forall x <- keys :: x in init || x == last;
      EntriesCoverage(init, all, keep, hasDraftAndPublish, k);
      assert last in keys;
      EntryPresence(all, last, keep, hasDraftAndPublish);
      EntryShape(all, last, keep, hasDraftAndPublish);
      var entries := Entries(keys, all, keep, hasDraftAndPublish);
      var tail := ToSeq(LocaleEntry(ProjectAll(GroupOf(all, last), keep), hasDraftAndPublish));
      assert entries == Entries(init, all, keep, hasDraftAndPublish) + tail;
      if k == last && exists v <- all :: LocaleOf(v) == k && (hasDraftAndPublish ==> IsDraft(v)) {
        assert tail[0] in entries;
      }
    }
  }

  /**
   * A locale appears in `getAvailableLocales` exactly when it is not the
   * caller's own and some stored row has it; with draft and publish that row
   * must also be a draft, so a locale with no draft is omitted.
   */
  lemma AvailableLocalesCoverage(version: Row, allVersions: seq<Row>, validatableFields: seq<string>,
                                 hasDraftAndPublish: bool, k: Option<Value>)
    ensures (exists e <- AvailableLocales(version, allVersions, validatableFields, hasDraftAndPublish) ::
               LocaleOf(e) == k)
            <==>
            k != LocaleOf(version) &&
            exists v <- allVersions :: LocaleOf(v) == k && (hasDraftAndPublish ==> IsDraft(v))
  {
    var keys := RemoveKey(LocaleKeys(allVersions), LocaleOf(version));
    LocaleKeysMembers(allVersions);
    RemoveKeyMembers(LocaleKeys(allVersions), LocaleOf(version));
    EntriesCoverage(keys, allVersions, KeysToKeep(validatableFields), hasDraftAndPublish, k);
  }

  /** Each entry contributed for locale `k` is determined by the group of `k`. */
  lemma {:induction false} EntriesContent(keys: seq<Option<Value>>, all: seq<Row>, keep: set<string>,
                                          hasDraftAndPublish: bool)
    requires AvailableLocalesFields <= keep
    ensures forall e <- Entries(keys, all, keep, hasDraftAndPublish) ::
              LocaleEntry(ProjectAll(GroupOf(all, LocaleOf(e)), keep), hasDraftAndPublish) == Some(e)
  {
    if keys != [] {
      var init := keys[..|keys| - 1];
      var last := keys[|keys| - 1];
      EntriesContent(init, all, keep, hasDraftAndPublish);
      EntryShape(all, last, keep, hasDraftAndPublish);
    }
  }

  /**
   * Each entry is, without draft and publish, the first stored row of its
   * locale and, with it, the first draft of its locale stamped with its
   * status against the other rows of that locale (all projected).
   */
  lemma AvailableLocalesContent(version: Row, allVersions: seq<Row>, validatableFields: seq<string>,
                                hasDraftAndPublish: bool)
    ensures var keep := AvailableLocalesFields + set f | f in validatableFields;
            forall e <- AvailableLocales(version, allVersions, validatableFields, hasDraftAndPublish) ::
              var mapped := ProjectAll(GroupOf(allVersions, LocaleOf(e)), keep);
              if hasDraftAndPublish then
                FirstDraft(mapped).Some? &&
                e == WithStatus(FirstDraft(mapped).value,
                                GetStatus(FirstDraft(mapped).value, OthersThan(mapped, FirstDraft(mapped).value)))
              else
                mapped != [] && e == mapped[0]
  {
    var keys := RemoveKey(LocaleKeys(allVersions), LocaleOf(version));
    var keep := KeysToKeep(validatableFields);
    EntriesContent(keys, allVersions, keep, hasDraftAndPublish);
    forall e <- AvailableLocales(version, allVersions, validatableFields, hasDraftAndPublish) {
      LocaleEntrySome(ProjectAll(GroupOf(allVersions, LocaleOf(e)), keep), hasDraftAndPublish, e);
    }
  }

  /** What a present entry of one group is. */
  lemma LocaleEntrySome(mapped: seq<Row>, hasDraftAndPublish: bool, e: Row)
    requires LocaleEntry(mapped, hasDraftAndPublish) == Some(e)
    ensures if hasDraftAndPublish then
              FirstDraft(mapped).Some? &&
              e == WithStatus(FirstDraft(mapped).value,
                              GetStatus(FirstDraft(mapped).value, OthersThan(mapped, FirstDraft(mapped).value)))
            else
              mapped != [] && e == mapped[0]
  {
  }

  /** No two entries share a locale. */
  predicate OnePerLocale(es: seq<Row>) {
    forall i, j :: 0 <= i < j < |es| ==> LocaleOf(es[i]) != LocaleOf(es[j])
  }

  /** No locale has two entries. */
  lemma {:induction false} EntriesDistinct(keys: seq<Option<Value>>, all: seq<Row>, keep: set<string>,
                                           hasDraftAndPublish: bool)
    requires AvailableLocalesFields <= keep
    requires Distinct(keys)
    ensures OnePerLocale(Entries(keys, all, keep, hasDraftAndPublish))
  {
    if keys != [] {
      var init := keys[..|keys| - 1];
      var last := keys[|keys| - 1];
      assert Distinct(init) by {
        forall i, j | 0 <= i < j < |init| ensures init[i] != init[j] {
          assert init[i] == keys[i] && init[j] == keys[j];
        }
      }
      EntriesDistinct(init, all, keep, hasDraftAndPublish);
      EntriesShape(init, all, keep, hasDraftAndPublish);
      EntryShape(all, last, keep, hasDraftAndPublish);
      var front := Entries(init, all, keep, hasDraftAndPublish);
      var tail := ToSeq(LocaleEntry(ProjectAll(GroupOf(all, last), keep), hasDraftAndPublish));
      var es := Entries(keys, all, keep, hasDraftAndPublish);
      assert es == front + tail;
      forall i, j | 0 <= i < j < |es|
        ensures LocaleOf(es[i]) != LocaleOf(es[j])
      {
        assert es[i] == front[i];
        if j < |front| {
          assert es[j] == front[j];
          assert OnePerLocale(front);
        } else {
          assert j == |front|;
          assert front[i] in front;
          assert es[j] == tail[0] == LocaleEntry(ProjectAll(GroupOf(all, last), keep), hasDraftAndPublish).value;
          assert LocaleOf(es[j]) == last;
          var p :| 0 <= p < |init| && init[p] == LocaleOf(front[i]);
          assert keys[p] == init[p] && keys[|keys| - 1] == last;
        }
      }
    }
  }

  /** `getAvailableLocales` returns at most one entry per locale. */
  lemma AvailableLocalesOnePerLocale(version: Row, allVersions: seq<Row>, validatableFields: seq<string>,
                                     hasDraftAndPublish: bool)
    ensures OnePerLocale(AvailableLocales(version, allVersions, validatableFields, hasDraftAndPublish))
  {
    var keys := RemoveKey(LocaleKeys(allVersions), LocaleOf(version));
    LocaleKeysMembers(allVersions);
    RemoveKeyMembers(LocaleKeys(allVersions), LocaleOf(version));
    EntriesDistinct(keys, allVersions, KeysToKeep(validatableFields), hasDraftAndPublish);
  }

  // ---------------------------------------------------------------------------
  // getAvailableStatus and getManyAvailableStatus
  // ---------------------------------------------------------------------------

  /** Same locale as `version`, at the other publication state. */
  predicate IsOppositeStatus(version: Row, v: Row) {
    LocaleOf(v) == LocaleOf(version) && IsDraft(v) != IsDraft(version)
  }

  /** `allVersions[i]` is the first row of `version`'s locale at the opposite state. */
  predicate IsFirstOpposite(version: Row, allVersions: seq<Row>, i: int) {
    && 0 <= i < |allVersions| && IsOppositeStatus(version, allVersions[i])
    && forall j :: 0 <= j < i ==> !IsOppositeStatus(version, allVersions[j])
  }

  /** `getAvailableStatus`: the first same-locale row at the opposite state, projected. */
  function GetAvailableStatus(version: Row, allVersions: seq<Row>): (r: Option<Row>)
    ensures r.None? <==> forall v <- allVersions :: !IsOppositeStatus(version, v)
    ensures r.Some? ==>
              exists i :: IsFirstOpposite(version, allVersions, i) && r.value == Project(allVersions[i], AvailableStatusFields)
  {
    if allVersions == [] then None
    else if IsOppositeStatus(version, allVersions[0]) then
      assert IsFirstOpposite(version, allVersions, 0);
      Some(Project(allVersions[0], AvailableStatusFields))
    else
      var r := GetAvailableStatus(version, allVersions[1..]);
      assert forall v <- allVersions :: v == allVersions[0] || v in allVersions[1..];
      if r.Some? then
        var i :| IsFirstOpposite(version, allVersions[1..], i) && r.value == Project(allVersions[1..][i], AvailableStatusFields);
        assert IsFirstOpposite(version, allVersions, i + 1) by {
          forall j | 0 <= j < i + 1 ensures !IsOppositeStatus(version, allVersions[j]) {
            if j > 0 { assert allVersions[j] == allVersions[1..][j - 1]; }
          }
        }
        assert allVersions[i + 1] == allVersions[1..][i];
        r
      else
        r
  }

  /** The batched opposite-status lookup `getManyAvailableStatus` sends to the document service. */
  datatype ManyStatusQuery = ManyStatusQuery(documentIds: seq<Value>, status: Status,
                                             locale: Option<Value>, fields: seq<string>)

  /** `documents.map(d => d.documentId).filter(Boolean)` */
  function TruthyDocumentIds(documents: seq<Row>): (ids: seq<Value>)
    ensures forall x :: x in ids <==>
              Truthy(Some(x)) && exists d <- documents :: Get(d, "documentId") == Some(x)
  {
    if documents == [] then []
    else
      var id := Get(documents[0], "documentId");
      assert forall d <- documents :: d == documents[0] || d in documents[1..];
      (if Truthy(id) then [id.value] else []) + TruthyDocumentIds(documents[1..])
  }

  /**
   * `getManyAvailableStatus`: no query (an empty answer) for no documents;
   * otherwise one lookup at the status opposite to the first document's, in
   * its locale, for every truthy document id.
   */
  function GetManyAvailableStatus(documents: seq<Row>): (q: Option<ManyStatusQuery>)
    ensures q.None? <==> documents == []
    ensures q.Some? ==>
              && q.value.status == (if IsDraft(documents[0]) then Published else Draft)
              && q.value.locale == LocaleOf(documents[0])
              && q.value.fields == ManyStatusFields
              && forall x :: x in q.value.documentIds <==>
                   Truthy(Some(x)) && exists d <- documents :: Get(d, "documentId") == Some(x)
  {
    if documents == [] then None
    else
      var status := if !IsDraft(documents[0]) then Published else Draft;
      var otherStatus := if status == Published then Draft else Published;
      Some(ManyStatusQuery(TruthyDocumentIds(documents), otherStatus, LocaleOf(documents[0]), ManyStatusFields))
  }

  // ---------------------------------------------------------------------------
  // getMetadata and formatDocumentWithMetadata
  // ---------------------------------------------------------------------------

  datatype Metadata = Metadata(availableLocales: seq<Row>, availableStatus: seq<Row>)

  /**
   * `getMetadata`. `versions` are the rows the store returns for the
   * version's document id; `validatableFields` are the keys of the
   * validatable populate. An undefined flag (`None`) defaults to true.
   */
  method GetMetadata(version: Row, versions: seq<Row>, validatableFields: seq<string>,
                     hasDraftAndPublish: bool, availableLocales: Option<bool>, availableStatus: Option<bool>)
    returns (meta: Metadata)
    ensures meta.availableLocales ==
              if availableLocales.GetOr(true)
              then AvailableLocales(version, versions, validatableFields, hasDraftAndPublish)
              else []
    ensures |meta.availableStatus| <= 1
    ensures !availableStatus.GetOr(true) ==> meta.availableStatus == []
    ensures availableStatus.GetOr(true) ==>
              meta.availableStatus == ToSeq(GetAvailableStatus(version, versions))
  {
    var localesResult: seq<Row> := [];
    if availableLocales.GetOr(true) {
      localesResult := GetAvailableLocales(version, versions, validatableFields, hasDraftAndPublish);
    }
    var statusResult: Option<Row> := None;
    if availableStatus.GetOr(true) {
      statusResult := GetAvailableStatus(version, versions);
    }
    meta := Metadata(localesResult, ToSeq(statusResult));
  }

  /** The caller's options object, which `formatDocumentWithMetadata` may change. */
  class MetadataOptions {
    var availableLocales: Option<bool>
    var availableStatus: Option<bool>

    constructor (availableLocales: Option<bool>, availableStatus: Option<bool>)
      ensures this.availableLocales == availableLocales && this.availableStatus == availableStatus
    {
      this.availableLocales := availableLocales;
      this.availableStatus := availableStatus;
    }
  }

  datatype FormattedDocument = FormattedDocument(data: Row, meta: Metadata)

  /**
   * `formatDocumentWithMetadata`. A missing document (`None`) is returned as
   * it is. Without draft and publish the caller's `opts.availableStatus` is
   * switched off (the object is changed in place) and the document gets no
   * status; otherwise it is stamped with its status against the available
   * status.
   */
  method FormatDocumentWithMetadata(document: Option<Row>, versions: seq<Row>, validatableFields: seq<string>,
                                    hasDraftAndPublish: bool, opts: MetadataOptions)
    returns (r: Option<FormattedDocument>)
    modifies opts
    ensures document.None? ==> r.None? && unchanged(opts)
    ensures document.Some? ==> r.Some?
    ensures opts.availableLocales == old(opts.availableLocales)
    ensures document.Some? && !hasDraftAndPublish ==> opts.availableStatus == Some(false)
    ensures hasDraftAndPublish ==> opts.availableStatus == old(opts.availableStatus)
    ensures r.Some? ==>
              && r.value.meta.availableLocales ==
                   (if opts.availableLocales.GetOr(true)
                    then AvailableLocales(document.value, versions, validatableFields, hasDraftAndPublish)
                    else [])
              && r.value.meta.availableStatus ==
                   (if opts.availableStatus.GetOr(true)
                    then ToSeq(GetAvailableStatus(document.value, versions))
                    else [])
    ensures r.Some? && !hasDraftAndPublish ==>
              r.value.meta.availableStatus == [] && r.value.data == document.value - {"status"}
    ensures r.Some? && hasDraftAndPublish ==>
              r.value.data == WithStatus(document.value, GetStatus(document.value, r.value.meta.availableStatus))
  {
    if document.None? {
      return None;
    }
    if !hasDraftAndPublish {
      opts.availableStatus := Some(false);
    }
    var meta := GetMetadata(document.value, versions, validatableFields, hasDraftAndPublish,
                            opts.availableLocales, opts.availableStatus);
    var data := if hasDraftAndPublish
                then WithStatus(document.value, GetStatus(document.value, meta.availableStatus))
                else document.value - {"status"};
    r := Some(FormattedDocument(data, meta));
  }
}
