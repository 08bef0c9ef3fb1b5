/**
 The migration of server-managed items without a profile: each is decrypted under
 the additional data it was written with, sealed again under its organization's
 default profile at version 2, and bound to that profile.
 */
module Backfill {
  import opened Basics
  import opened Primitives
  import opened Aad
  import opened Server
  import Base64
  import Radix

  datatype ItemRow = ItemRow(
    organizationId: Bytes, profileId: Option<Bytes>, serverManaged: bool, deleted: bool,
    serverCiphertext: Option<string>, serverIv: Option<string>, serverKeyVersion: Option<int>,
    contentVersion: int, updatedAt: int)

  datatype ProfileRow = ProfileRow(id: Bytes, organizationId: Bytes, serverManaged: bool, externalId: Option<string>,
                                   createdAt: int)

  type Items = map<Bytes, ItemRow>

  datatype UnboundRecord = UnboundRecord(id: Bytes, serverCiphertext: string, serverIv: string, serverKeyVersion: int)

  datatype OrgCount = OrgCount(organizationId: Bytes, profileId: Bytes, migrated: nat)

  datatype Report = Report(scanned: nat, migrated: nat, perOrg: seq<OrgCount>)

  // ---- the binding target ----------------------------------------------------------

  predicate Candidate(p: ProfileRow, org: Bytes) {
    p.organizationId == org && p.serverManaged
  }

  /** `order by (externalId = 'default' first), createdAt`. */
  predicate Before(p: ProfileRow, q: ProfileRow) {
    var rp, rq := if p.externalId == Some("default") then 0 else 1, if q.externalId == Some("default") then 0 else 1;
    rp < rq || (rp == rq && p.createdAt < q.createdAt)
  }

  /** The first candidate in that order; ties go to the earlier row. */
  function DefaultProfile(profiles: seq<ProfileRow>, org: Bytes): (r: Option<ProfileRow>)
    ensures r.None? <==> forall i :: 0 <= i < |profiles| ==> !Candidate(profiles[i], org)
    ensures r.Some? ==> r.value in profiles && Candidate(r.value, org)
                        && forall i :: 0 <= i < |profiles| && Candidate(profiles[i], org)
                            ==> !Before(profiles[i], r.value)
  {
    if profiles == [] then None
    else
      var n := |profiles| - 1;
      var rest := DefaultProfile(profiles[..n], org);
      if Candidate(profiles[n], org) && (rest.None? || Before(profiles[n], rest.value)) then Some(profiles[n]) else rest
  }

  /** The profile id used; an empty id counts as none. */
  function Target(profiles: seq<ProfileRow>, org: Bytes): Option<Bytes> {
    match DefaultProfile(profiles, org)
    case Some(p) => if p.id != [] then Some(p.id) else None
    case None => None
  }

  /** The binding target in terms of the rows: a server-managed profile of the organization,
      one named `default` if there is any, and the oldest of those that qualify. */
  lemma DefaultProfileIs(profiles: seq<ProfileRow>, org: Bytes, q: ProfileRow)
    requires q in profiles && q.organizationId == org && q.serverManaged
    ensures var r := DefaultProfile(profiles, org);
            r.Some? && r.value in profiles && r.value.organizationId == org && r.value.serverManaged
            && (q.externalId == Some("default") ==> r.value.externalId == Some("default"))
            && ((q.externalId == Some("default") <==> r.value.externalId == Some("default")) ==>
                  r.value.createdAt <= q.createdAt)
  {}

  // ---- meaning ------------------------------------------------------------------------

  predicate Complete(row: ItemRow) {
    && row.serverCiphertext.Some? && row.serverCiphertext.value != ""
    && row.serverIv.Some? && row.serverIv.value != ""
    && row.serverKeyVersion.Some?
  }

  predicate Listed(row: ItemRow, org: Bytes) {
    row.organizationId == org && row.serverManaged && row.profileId.None? && !row.deleted && Complete(row)
  }

  /** The rows the migration is for. */
  predicate Eligible(profiles: seq<ProfileRow>, row: ItemRow) {
    Listed(row, row.organizationId) && Target(profiles, row.organizationId).Some?
  }

  function RowAad(id: Bytes, row: ItemRow): Option<Identity>
    requires Complete(row)
  {
    if row.serverKeyVersion.value >= SERVER_AAD_MIN_VERSION then
      Some(ServerContent(row.organizationId, ProfileIdForServerAad(row.profileId), id, row.serverKeyVersion.value))
    else None
  }

  /** The plaintext a reader of the row gets, under the row's own additional data. */
  function Meaning(prim: Primitives, key: string, id: Bytes, row: ItemRow): Option<Bytes>
    requires Complete(row)
  {
    match ServerDecrypted(prim, ServerItem(row.serverCiphertext.value, row.serverIv.value, row.serverKeyVersion.value),
                          key, RowAad(id, row))
    case Ok(p) => Some(p)
    case Err(_) => None
  }

  /** The row is bound to its organization's default profile at version 2, reads as
      before, and is otherwise the same. */
  ghost predicate MigratedRow(prim: Primitives, key: string, profiles: seq<ProfileRow>, id: Bytes, row: ItemRow,
                              row': ItemRow)
  {
    && Eligible(profiles, row)
    && Complete(row')
    && row'.profileId == Target(profiles, row.organizationId)
    && row'.serverKeyVersion == Some(SERVER_AAD_MIN_VERSION)
    && Meaning(prim, key, id, row').Some? && Meaning(prim, key, id, row') == Meaning(prim, key, id, row)
    && row'.organizationId == row.organizationId && row'.serverManaged && !row'.deleted
    && row'.contentVersion == row.contentVersion
  }

  /** Exactly the rows in `done` have been migrated; all others are untouched. */
  ghost predicate MigratedExactly(prim: Primitives, key: string, profiles: seq<ProfileRow>, before: Items,
                                  after: Items, done: set<Bytes>)
  {
    && after.Keys == before.Keys && done <= before.Keys
    && (forall id :: id in done ==> MigratedRow(prim, key, profiles, id, before[id], after[id]))
    && (forall id :: id in before && id !in done ==> after[id] == before[id])
  }

  ghost function EligibleIds(profiles: seq<ProfileRow>, items: Items): set<Bytes> {
    set id | id in items && Eligible(profiles, items[id])
  }

  ghost function EligibleIn(profiles: seq<ProfileRow>, items: Items, orgs: set<Bytes>): set<Bytes> {
    set id | id in items && Eligible(profiles, items[id]) && items[id].organizationId in orgs
  }

  /** Some prefix of the work has been done. */
  ghost predicate Progress(prim: Primitives, key: string, profiles: seq<ProfileRow>, before: Items, after: Items) {
    exists done :: MigratedExactly(prim, key, profiles, before, after, done)
  }

  ghost predicate Finished(prim: Primitives, key: string, profiles: seq<ProfileRow>, before: Items, after: Items) {
    MigratedExactly(prim, key, profiles, before, after, EligibleIds(profiles, before))
  }

  function Total(perOrg: seq<OrgCount>): nat {
    if perOrg == [] then 0 else Total(perOrg[..|perOrg| - 1]) + perOrg[|perOrg| - 1].migrated
  }

  // ---- the store ------------------------------------------------------------------------

  ghost function Elements<T>(s: seq<T>): set<T> {
    set x | x in s
  }

  ghost predicate Distinct<T>(s: seq<T>) {
    forall i, j :: 0 <= i < j < |s| ==> s[i] != s[j]
  }

  lemma {:induction false} DistinctSize<T>(s: seq<T>)
    requires Distinct(s)
    ensures |Elements(s)| == |s|
  {
    if s != [] {
      var n := |s| - 1;
      DistinctSize(s[..n]);
      assert Elements(s) == Elements(s[..n]) + {s[n]};
    }
  }

  class Store {
    const profiles: seq<ProfileRow>
    var items: Items
    /** The table after every write, for statements about runs that are cut off. */
    ghost var log: seq<Items>

    constructor (profiles: seq<ProfileRow>, items: Items)
      ensures this.profiles == profiles && this.items == items && log == []
    {
      this.profiles := profiles;
      this.items := items;
      this.log := [];
    }

    method ListBootstrappedOrgIds() returns (orgs: seq<Bytes>)
      ensures Distinct(orgs)
      ensures forall org :: org in orgs <==> DefaultProfile(profiles, org).Some?
    {
      orgs := [];
      for i := 0 to |profiles|
        invariant Distinct(orgs)
        invariant forall org :: org in orgs <==> exists j :: 0 <= j < i && Candidate(profiles[j], org)
      {
        if profiles[i].serverManaged && profiles[i].organizationId !in orgs {
          orgs := orgs + [profiles[i].organizationId];
        }
      }
    }

    method DefaultServerManagedProfileId(org: Bytes) returns (id: Option<Bytes>)
      ensures id == match DefaultProfile(profiles, org) case Some(p) => Some(p.id) case None => None
    {
      var best: Option<ProfileRow> := None;
      for i := 0 to |profiles|
        invariant best == DefaultProfile(profiles[..i], org)
      {
        assert profiles[..i + 1][..i] == profiles[..i];
        if Candidate(profiles[i], org) && (best.None? || Before(profiles[i], best.value)) {
          best := Some(profiles[i]);
        }
      }
      assert profiles[..|profiles|] == profiles;
      id := if best.Some? then Some(best.value.id) else None;
    }

    /** The rows to migrate, in no particular order; incomplete rows are dropped. */
    method ListUnboundServerManagedItems(org: Bytes) returns (records: seq<UnboundRecord>)
      ensures Distinct(Ids(records))
      ensures Elements(Ids(records)) == set id | id in items && Listed(items[id], org)
      ensures forall r :: r in records ==> IsRecordOf(r, items)
    {
      records := [];
      var rest := items.Keys;
      while rest != {}
        invariant rest <= items.Keys && Distinct(Ids(records))
        invariant Elements(Ids(records)) == set id | id in items && id !in rest && Listed(items[id], org)
        invariant forall r :: r in records ==> IsRecordOf(r, items)
        decreases rest
      {
        var id :| id in rest;
        rest := rest - {id};
        var row := items[id];
        if Listed(row, org) {
          assert id !in Elements(Ids(records));
          var r := UnboundRecord(id, row.serverCiphertext.value, row.serverIv.value, row.serverKeyVersion.value);
          IdsSnoc(records, r);
          records := records + [r];
        }
      }
    }

    /** `update ... where id = ? and profileId is null`. */
    method BindServerManagedItem(now: int, id: Bytes, profileId: Bytes, item: ServerItem)
      modifies this
      ensures items == if id in old(items) && old(items)[id].profileId.None?
                       then old(items)[id := BoundRow(old(items)[id], now, profileId, item)] else old(items)
      ensures log == old(log) + [items]
    {
      if id in items && items[id].profileId.None? {
        items := items[id := BoundRow(items[id], now, profileId, item)];
      }
      log := log + [items];
    }
  }

  function BoundRow(row: ItemRow, now: int, profileId: Bytes, item: ServerItem): ItemRow {
    row.(profileId := Some(profileId), serverCiphertext := Some(item.ciphertext), serverIv := Some(item.iv),
         serverKeyVersion := Some(item.keyVersion), updatedAt := now)
  }

  function Ids(records: seq<UnboundRecord>): (ids: seq<Bytes>)
    ensures |ids| == |records|
  {
    seq(|records|, i requires 0 <= i < |records| => records[i].id)
  }

  lemma IdsSnoc(records: seq<UnboundRecord>, r: UnboundRecord)
    ensures Ids(records + [r]) == Ids(records) + [r.id]
    ensures Elements(Ids(records + [r])) == Elements(Ids(records)) + {r.id}
  {
    assert Ids(records + [r]) == Ids(records) + [r.id];
  }

  ghost predicate IsRecordOf(r: UnboundRecord, items: Items) {
    r.id in items && Complete(items[r.id])
    && r == UnboundRecord(r.id, items[r.id].serverCiphertext.value, items[r.id].serverIv.value,
                          items[r.id].serverKeyVersion.value)
  }

  // ---- one row ---------------------------------------------------------------------------

  /** Decrypting a listed row, sealing its plaintext for the target profile and binding
      it keeps its meaning. */
  lemma RebindPreserves(prim: Primitives, key: string, profiles: seq<ProfileRow>, id: Bytes, row: ItemRow,
                        plaintext: Bytes, iv: Bytes, now: int)
    requires prim.Ideal() && Eligible(profiles, row) && Meaning(prim, key, id, row) == Some(plaintext)
    requires iv != []
    ensures var target := Target(profiles, row.organizationId).value;
            var aad := ServerContent(row.organizationId, ProfileIdForServerAad(Some(target)), id,
                                     SERVER_AAD_MIN_VERSION);
            var sealed := ServerEncrypted(prim, plaintext, key, SERVER_AAD_MIN_VERSION, Some(aad), iv);
            sealed.Ok? && MigratedRow(prim, key, profiles, id, row, BoundRow(row, now, target, sealed.value))
  {
    hide Base64.UrlSafe, Base64.Decoded, Build, Target, ServerDecrypted;
    var target := Target(profiles, row.organizationId).value;
    var aad := ServerContent(row.organizationId, ProfileIdForServerAad(Some(target)), id, SERVER_AAD_MIN_VERSION);
    DecryptedKey(prim, key, id, row);
    DecryptExact(prim, plaintext, key, SERVER_AAD_MIN_VERSION, Some(aad), iv, key, Some(aad));
    var sealed := ServerEncrypted(prim, plaintext, key, SERVER_AAD_MIN_VERSION, Some(aad), iv).value;
    SealedComplete(prim, key, plaintext, aad, iv);
    var row' := BoundRow(row, now, target, sealed);
    assert RowAad(id, row') == Some(aad);
    assert ServerItem(row'.serverCiphertext.value, row'.serverIv.value, row'.serverKeyVersion.value) == sealed;
  }

  lemma DecryptedKey(prim: Primitives, key: string, id: Bytes, row: ItemRow)
    requires Complete(row) && Meaning(prim, key, id, row).Some?
    ensures ImportKey(key).Some?
  {}

  lemma NonEmptyText(b: Bytes)
    requires b != []
    ensures Base64.UrlSafe(b) != ""
  {
    hide Base64.UrlSafe;
    Base64.UrlText(b);
    assert Radix.DigitCount(|b|, 6) > 0;
  }

  lemma SealedComplete(prim: Primitives, key: string, plaintext: Bytes, aad: Identity, iv: Bytes)
    requires prim.Ideal() && ImportKey(key).Some? && iv != []
    ensures var sealed := ServerEncrypted(prim, plaintext, key, SERVER_AAD_MIN_VERSION, Some(aad), iv).value;
            sealed.ciphertext != "" && sealed.iv != "" && sealed.keyVersion == SERVER_AAD_MIN_VERSION
  {
    hide Base64.UrlSafe, Base64.Decoded, Build;
    NonEmptyText(prim.seal(ImportKey(key).value, iv, Build(aad), plaintext));
    NonEmptyText(iv);
  }

  // ---- the run ----------------------------------------------------------------------------

  lemma TargetOfOrg(profiles: seq<ProfileRow>, org: Bytes, p: ProfileRow)
    requires DefaultProfile(profiles, org) == Some(p)
    ensures Target(profiles, org) == if p.id != [] then Some(p.id) else None
  {}

  /** One more row migrated. */
  lemma OneMore(prim: Primitives, key: string, profiles: seq<ProfileRow>, before: Items, now: Items, done: set<Bytes>,
                id: Bytes, row': ItemRow)
    requires MigratedExactly(prim, key, profiles, before, now, done)
    requires id in before && id !in done && MigratedRow(prim, key, profiles, id, before[id], row')
    ensures MigratedExactly(prim, key, profiles, before, now[id := row'], done + {id})
  {
    hide MigratedRow;
  }

  /** Rows of an organization not reached yet are listed as they were before the run. */
  lemma ListedUnchanged(prim: Primitives, key: string, profiles: seq<ProfileRow>, before: Items, now: Items,
                        orgs: set<Bytes>, org: Bytes)
    requires MigratedExactly(prim, key, profiles, before, now, EligibleIn(profiles, before, orgs))
    requires org !in orgs && Target(profiles, org).Some?
    ensures (set id | id in now && Listed(now[id], org)) == EligibleIn(profiles, before, {org})
    ensures forall id :: id in now && Listed(now[id], org) ==> now[id] == before[id]
    ensures EligibleIn(profiles, before, {org}) !! EligibleIn(profiles, before, orgs)
    ensures EligibleIn(profiles, before, orgs + {org})
         == EligibleIn(profiles, before, orgs) + EligibleIn(profiles, before, {org})
  {
    hide Complete, Target;
    var done := EligibleIn(profiles, before, orgs);
    forall id | id in now
      ensures Listed(now[id], org) <==> id in EligibleIn(profiles, before, {org})
      ensures Listed(now[id], org) ==> now[id] == before[id]
    {
      if id in done {
        assert MigratedRow(prim, key, profiles, id, before[id], now[id]);
      } else {
        assert now[id] == before[id];
      }
    }
  }

  lemma NothingElse(profiles: seq<ProfileRow>, items: Items, orgs: set<Bytes>, org: Bytes)
    requires Target(profiles, org).None?
    ensures EligibleIn(profiles, items, orgs + {org}) == EligibleIn(profiles, items, orgs)
  {}

  lemma NoOrgLeft(profiles: seq<ProfileRow>, items: Items, orgs: set<Bytes>)
    requires forall org :: Target(profiles, org).Some? ==> org in orgs
    ensures EligibleIn(profiles, items, orgs) == EligibleIds(profiles, items)
  {}

  lemma ElementsSnoc<T>(s: seq<T>, i: nat)
    requires i < |s|
    ensures Elements(s[..i + 1]) == Elements(s[..i]) + {s[i]}
    ensures Distinct(s) ==> s[i] !in s[..i]
  {
    assert s[..i + 1] == s[..i] + [s[i]];
  }

  /** What the run reports per organization. */
  ghost predicate CountsRight(profiles: seq<ProfileRow>, items: Items, perOrg: seq<OrgCount>, orgs: set<Bytes>) {
    && Total(perOrg) == |EligibleIn(profiles, items, orgs)|
    && (forall i :: 0 <= i < |perOrg| ==>
          perOrg[i].organizationId in orgs
          && Target(profiles, perOrg[i].organizationId) == Some(perOrg[i].profileId)
          && perOrg[i].migrated == |EligibleIn(profiles, items, {perOrg[i].organizationId})| > 0)
    && (forall i, j :: 0 <= i < j < |perOrg| ==> perOrg[i].organizationId != perOrg[j].organizationId)
  }

  lemma CountOrg(profiles: seq<ProfileRow>, items: Items, perOrg: seq<OrgCount>, orgs: set<Bytes>, c: OrgCount)
    requires CountsRight(profiles, items, perOrg, orgs) && c.organizationId !in orgs
    requires Target(profiles, c.organizationId) == Some(c.profileId)
    requires c.migrated == |EligibleIn(profiles, items, {c.organizationId})| > 0
    requires EligibleIn(profiles, items, {c.organizationId}) !! EligibleIn(profiles, items, orgs)
    requires EligibleIn(profiles, items, orgs + {c.organizationId})
          == EligibleIn(profiles, items, orgs) + EligibleIn(profiles, items, {c.organizationId})
    ensures CountsRight(profiles, items, perOrg + [c], orgs + {c.organizationId})
  {
    hide Target, EligibleIn;
    assert (perOrg + [c])[..|perOrg|] == perOrg;
  }

  /** Every table written since `was` is the original with part of the work done. */
  ghost predicate LogSafe(prim: Primitives, key: string, profiles: seq<ProfileRow>, before: Items, was: seq<Items>,
                          log: seq<Items>)
  {
    was <= log && forall i :: |was| <= i < |log| ==> Progress(prim, key, profiles, before, log[i])
  }

  lemma LogSnoc(prim: Primitives, key: string, profiles: seq<ProfileRow>, before: Items, was: seq<Items>,
                log: seq<Items>, now: Items, done: set<Bytes>)
    requires LogSafe(prim, key, profiles, before, was, log)
    requires MigratedExactly(prim, key, profiles, before, now, done)
    ensures LogSafe(prim, key, profiles, before, was, log + [now])
  {
    hide MigratedExactly;
  }

  lemma LogTrans(prim: Primitives, key: string, profiles: seq<ProfileRow>, before: Items, was: seq<Items>,
                 mid: seq<Items>, log: seq<Items>)
    requires LogSafe(prim, key, profiles, before, was, mid) && LogSafe(prim, key, profiles, before, mid, log)
    ensures LogSafe(prim, key, profiles, before, was, log)
  {
    hide Progress;
    forall i | |was| <= i < |log|
      ensures Progress(prim, key, profiles, before, log[i])
    {
      if i < |mid| {
        assert log[i] == mid[i];
      }
    }
  }

  /** A row of the original table that cannot be decrypted. */
  ghost predicate Blocks(prim: Primitives, key: string, profiles: seq<ProfileRow>, before: Items, id: Bytes) {
    id in before && Eligible(profiles, before[id]) && Meaning(prim, key, id, before[id]).None?
  }

  /** Migrating one listed row. */
  method BackfillItem(prim: Primitives, store: Store, encryptionKey: string, org: Bytes, profileId: Bytes,
                      item: UnboundRecord, now: int, iv: Bytes, ghost before: Items, ghost done: set<Bytes>)
    returns (error: Option<ServerError>)
    requires prim.Ideal() && |iv| == IV_LENGTH
    requires MigratedExactly(prim, encryptionKey, store.profiles, before, store.items, done)
    requires Target(store.profiles, org) == Some(profileId)
    requires IsRecordOf(item, before) && Listed(before[item.id], org) && item.id !in done
    modifies store
    ensures error.None? ==> MigratedExactly(prim, encryptionKey, store.profiles, before, store.items, done + {item.id})
    ensures error.None? ==> store.log == old(store.log) + [store.items]
    ensures error.Some? ==> store.items == old(store.items) && store.log == old(store.log)
    ensures error.Some? ==> Blocks(prim, encryptionKey, store.profiles, before, item.id)
  {
    hide Meaning, MigratedRow, Eligible, Target, ServerEncrypted;
    var row := before[item.id];
    EligibleListed(store.profiles, row, org);
    var decryptAad := if item.serverKeyVersion >= SERVER_AAD_MIN_VERSION then
      Some(ServerContent(org, ProfileIdForServerAad(None), item.id, item.serverKeyVersion)) else None;
    var plaintext := Server.ServerDecrypt(prim,
                                          ServerItem(item.serverCiphertext, item.serverIv, item.serverKeyVersion),
                                          encryptionKey, decryptAad);
    MeaningOfListed(prim, encryptionKey, item.id, row, org, decryptAad);
    if plaintext.Err? {
      return Some(plaintext.error);
    }
    var reAad := ServerContent(org, ProfileIdForServerAad(Some(profileId)), item.id, SERVER_AAD_MIN_VERSION);
    var sealed := Server.ServerEncrypt(prim, plaintext.value, encryptionKey, SERVER_AAD_MIN_VERSION, Some(reAad), iv);
    RebindPreserves(prim, encryptionKey, store.profiles, item.id, row, plaintext.value, iv, now);
    ghost var table := store.items;
    store.BindServerManagedItem(now, item.id, profileId, sealed.value);
    OneMore(prim, encryptionKey, store.profiles, before, table, done, item.id, store.items[item.id]);
    error := None;
  }

  /** Migrating the listed rows of one organization. */
  method BackfillOrg(prim: Primitives, store: Store, encryptionKey: string, org: Bytes, profileId: Bytes,
                     records: seq<UnboundRecord>, clock: nat -> int, ivs: nat -> Bytes, drawn: nat,
                     ghost before: Items, ghost done: set<Bytes>)
    returns (error: Option<ServerError>)
    requires prim.Ideal() && forall n :: |ivs(n)| == IV_LENGTH
    requires MigratedExactly(prim, encryptionKey, store.profiles, before, store.items, done)
    requires Target(store.profiles, org) == Some(profileId)
    requires Distinct(Ids(records)) && Elements(Ids(records)) !! done
    requires forall r :: r in records ==> IsRecordOf(r, before) && Listed(before[r.id], org)
    modifies store
    ensures error.None? ==> MigratedExactly(prim, encryptionKey, store.profiles, before, store.items,
                                            done + Elements(Ids(records)))
    ensures error.Some? ==> Progress(prim, encryptionKey, store.profiles, before, store.items)
    ensures error.Some? ==> exists id :: Blocks(prim, encryptionKey, store.profiles, before, id)
    ensures LogSafe(prim, encryptionKey, store.profiles, before, old(store.log), store.log)
  {
    hide MigratedExactly, Target, LogSafe, Blocks, IsRecordOf, Listed;
    error := None;
    assert done + Elements(Ids(records)[..0]) == done;
    NothingLogged(prim, encryptionKey, store.profiles, before, store.log);
    for j := 0 to |records|
      invariant error.None?
      invariant MigratedExactly(prim, encryptionKey, store.profiles, before, store.items,
                                done + Elements(Ids(records)[..j]))
      invariant LogSafe(prim, encryptionKey, store.profiles, before, old(store.log), store.log)
    {
      var item := records[j];
      ElementsSnoc(Ids(records), j);
      assert item in records && item.id == Ids(records)[j] && item.id in Elements(Ids(records));
      ghost var log, sofar := store.log, done + Elements(Ids(records)[..j]);
      error := BackfillItem(prim, store, encryptionKey, org, profileId, item, clock(drawn + j), ivs(drawn + j), before,
                            sofar);
      if error.Some? {
        assert Blocks(prim, encryptionKey, store.profiles, before, item.id);
        return;
      }
      assert sofar + {item.id} == done + Elements(Ids(records)[..j + 1]);
      LogSnoc(prim, encryptionKey, store.profiles, before, old(store.log), log, store.items, sofar + {item.id});
    }
    assert Ids(records)[..|records|] == Ids(records);
  }

  lemma NothingLogged(prim: Primitives, key: string, profiles: seq<ProfileRow>, before: Items, log: seq<Items>)
    ensures LogSafe(prim, key, profiles, before, log, log)
  {}

  lemma EligibleListed(profiles: seq<ProfileRow>, row: ItemRow, org: Bytes)
    requires Listed(row, org) && Target(profiles, org).Some?
    ensures Eligible(profiles, row)
  {}

  lemma MeaningOfListed(prim: Primitives, key: string, id: Bytes, row: ItemRow, org: Bytes, aad: Option<Identity>)
    requires Listed(row, org)
    requires aad == if row.serverKeyVersion.value >= SERVER_AAD_MIN_VERSION then
      Some(ServerContent(org, ProfileIdForServerAad(None), id, row.serverKeyVersion.value)) else None
    ensures Meaning(prim, key, id, row)
         == match ServerDecrypted(prim, ServerItem(row.serverCiphertext.value, row.serverIv.value,
                                                   row.serverKeyVersion.value), key, aad)
            case Ok(p) => Some(p) case Err(_) => None
  {}

  /** `backfillServerManagedItemProfiles`. The clock and the random IVs are streams. */
  method Backfill(prim: Primitives, store: Store, encryptionKey: string, clock: nat -> int, ivs: nat -> Bytes)
    returns (r: Result<Report, ServerError>)
    requires prim.Ideal() && forall n :: |ivs(n)| == IV_LENGTH
    modifies store
    ensures r.Ok? ==>
      && Finished(prim, encryptionKey, store.profiles, old(store.items), store.items)
      && r.value.scanned == r.value.migrated == Total(r.value.perOrg) == |EligibleIds(store.profiles, old(store.items))|
      && exists orgs :: CountsRight(store.profiles, old(store.items), r.value.perOrg, orgs)
    ensures r.Err? ==> Progress(prim, encryptionKey, store.profiles, old(store.items), store.items)
    ensures r.Ok? <==> !exists id :: Blocks(prim, encryptionKey, store.profiles, old(store.items), id)
    ensures LogSafe(prim, encryptionKey, store.profiles, old(store.items), old(store.log), store.log)
  {
    hide MigratedExactly, EligibleIn, Target, CountsRight, Listed, IsRecordOf, Progress, LogSafe, Blocks;
    ghost var before := store.items;
    var perOrg: seq<OrgCount> := [];
    var scanned, migrated: nat := 0, 0;
    var orgs := store.ListBootstrappedOrgIds();
    NothingDone(prim, encryptionKey, store.profiles, before);
    NothingLogged(prim, encryptionKey, store.profiles, before, store.log);
    for i := 0 to |orgs|
      invariant MigratedExactly(prim, encryptionKey, store.profiles, before, store.items,
                                EligibleIn(store.profiles, before, Elements(orgs[..i])))
      invariant CountsRight(store.profiles, before, perOrg, Elements(orgs[..i]))
      invariant scanned == migrated == Total(perOrg)
      invariant LogSafe(prim, encryptionKey, store.profiles, before, old(store.log), store.log)
    {
      var org := orgs[i];
      ElementsSnoc(orgs, i);
      var profileId := store.DefaultServerManagedProfileId(org);
      assert org in orgs;
      TargetOfOrg(store.profiles, org, DefaultProfile(store.profiles, org).value);
      if profileId.None? || profileId.value == [] {
        NothingElse(store.profiles, before, Elements(orgs[..i]), org);
        SkipOrg(store.profiles, before, perOrg, Elements(orgs[..i]), org);
        continue;
      }
      ListedUnchanged(prim, encryptionKey, store.profiles, before, store.items, Elements(orgs[..i]), org);
      var items := store.ListUnboundServerManagedItems(org);
      ghost var fresh' := EligibleIn(store.profiles, before, {org});
      RecordsCount(items);
      SameTable(prim, encryptionKey, store.profiles, before, store.items,
                EligibleIn(store.profiles, before, Elements(orgs[..i])));
      if |items| == 0 {
        assert fresh' == {};
        NothingCounted(store.profiles, before, perOrg, Elements(orgs[..i]), org);
        continue;
      }
      scanned := scanned + |items|;
      RecordsOfOrg(items, store.items, before, org);
      ghost var log := store.log;
      var error := BackfillOrg(prim, store, encryptionKey, org, profileId.value, items, clock, ivs, migrated,
                               before, EligibleIn(store.profiles, before, Elements(orgs[..i])));
      LogTrans(prim, encryptionKey, store.profiles, before, old(store.log), log, store.log);
      if error.Some? {
        return Err(error.value);
      }
      migrated := migrated + |items|;
      var c := OrgCount(org, profileId.value, |items|);
      CountOrg(store.profiles, before, perOrg, Elements(orgs[..i]), c);
      TotalSnoc(perOrg, c);
      perOrg := perOrg + [c];
    }
    assert orgs[..|orgs|] == orgs;
    TargetsAreOrgs(store.profiles);
    NoOrgLeft(store.profiles, before, Elements(orgs));
    CountsAre(store.profiles, before, perOrg, Elements(orgs));
    AllMeaningful(prim, encryptionKey, store.profiles, before, store.items);
    r := Ok(Report(scanned, migrated, perOrg));
  }

  lemma TotalSnoc(perOrg: seq<OrgCount>, c: OrgCount)
    ensures Total(perOrg + [c]) == Total(perOrg) + c.migrated
  {
    assert (perOrg + [c])[..|perOrg|] == perOrg;
  }

  lemma CountsAre(profiles: seq<ProfileRow>, items: Items, perOrg: seq<OrgCount>, orgs: set<Bytes>)
    requires CountsRight(profiles, items, perOrg, orgs)
    ensures Total(perOrg) == |EligibleIn(profiles, items, orgs)|
  {}

  lemma NothingDone(prim: Primitives, key: string, profiles: seq<ProfileRow>, before: Items)
    ensures MigratedExactly(prim, key, profiles, before, before, EligibleIn(profiles, before, Elements([])))
    ensures CountsRight(profiles, before, [], Elements([]))
  {}

  lemma SkipOrg(profiles: seq<ProfileRow>, items: Items, perOrg: seq<OrgCount>, orgs: set<Bytes>, org: Bytes)
    requires CountsRight(profiles, items, perOrg, orgs)
    requires EligibleIn(profiles, items, orgs + {org}) == EligibleIn(profiles, items, orgs)
    ensures CountsRight(profiles, items, perOrg, orgs + {org})
  {}

  lemma NothingCounted(profiles: seq<ProfileRow>, items: Items, perOrg: seq<OrgCount>, orgs: set<Bytes>, org: Bytes)
    requires CountsRight(profiles, items, perOrg, orgs)
    requires EligibleIn(profiles, items, orgs + {org})
          == EligibleIn(profiles, items, orgs) + EligibleIn(profiles, items, {org})
    requires EligibleIn(profiles, items, {org}) == {}
    ensures CountsRight(profiles, items, perOrg, orgs + {org})
    ensures EligibleIn(profiles, items, orgs + {org}) == EligibleIn(profiles, items, orgs)
  {
    SkipOrg(profiles, items, perOrg, orgs, org);
  }

  lemma SameTable(prim: Primitives, key: string, profiles: seq<ProfileRow>, before: Items, now: Items, done: set<Bytes>)
    requires MigratedExactly(prim, key, profiles, before, now, done)
    ensures now.Keys == before.Keys
  {}

  lemma RecordsCount(records: seq<UnboundRecord>)
    requires Distinct(Ids(records))
    ensures |Elements(Ids(records))| == |records|
    ensures |records| == 0 ==> Elements(Ids(records)) == {}
  {
    DistinctSize(Ids(records));
  }

  lemma RecordsOfOrg(records: seq<UnboundRecord>, now: Items, before: Items, org: Bytes)
    requires now.Keys == before.Keys
    requires Elements(Ids(records)) == set id | id in now && Listed(now[id], org)
    requires forall id :: id in now && Listed(now[id], org) ==> now[id] == before[id]
    requires forall r :: r in records ==> IsRecordOf(r, now)
    ensures forall r :: r in records ==> IsRecordOf(r, before) && Listed(before[r.id], org)
  {
    forall r | r in records
      ensures IsRecordOf(r, before) && Listed(before[r.id], org)
    {
      var k :| 0 <= k < |records| && records[k] == r;
      assert Ids(records)[k] == r.id && r.id in Elements(Ids(records));
    }
  }

  lemma TargetsAreOrgs(profiles: seq<ProfileRow>)
    ensures forall org :: Target(profiles, org).Some? ==> DefaultProfile(profiles, org).Some?
  {}

  lemma AllMeaningful(prim: Primitives, key: string, profiles: seq<ProfileRow>, before: Items, after: Items)
    requires Finished(prim, key, profiles, before, after)
    ensures !exists id :: Blocks(prim, key, profiles, before, id)
  {
    forall id | id in before && Eligible(profiles, before[id])
      ensures Meaning(prim, key, id, before[id]).Some?
    {
      assert id in EligibleIds(profiles, before);
      assert MigratedRow(prim, key, profiles, id, before[id], after[id]);
    }
  }

  // ---- cutting off and running again ---------------------------------------------------------

  /** After any part of the work, the rows still to migrate are the ones not migrated
      yet, as they were. */
  lemma RemainingEligible(prim: Primitives, key: string, profiles: seq<ProfileRow>, before: Items, partial: Items,
                          done: set<Bytes>)
    requires MigratedExactly(prim, key, profiles, before, partial, done)
    ensures EligibleIds(profiles, partial) == EligibleIds(profiles, before) - done
  {
    hide Target, Meaning, Complete;
    forall id | id in before
      ensures id in EligibleIds(profiles, partial) <==> id in EligibleIds(profiles, before) && id !in done
    {
      if id in done {
        assert MigratedRow(prim, key, profiles, id, before[id], partial[id]);
        TargetStays(profiles, before[id]);
      }
    }
  }

  lemma TargetStays(profiles: seq<ProfileRow>, row: ItemRow)
    requires Eligible(profiles, row)
    ensures Target(profiles, row.organizationId).Some?
  {}

  /** A run cut off after any prefix and then run again ends as an uncut run may end:
      the same rows are bound, to the same profiles, with the same plaintexts. */
  lemma ResumeFinishes(prim: Primitives, key: string, profiles: seq<ProfileRow>, before: Items, partial: Items,
                       after: Items)
    requires Progress(prim, key, profiles, before, partial)
    requires Finished(prim, key, profiles, partial, after)
    ensures Finished(prim, key, profiles, before, after)
  {
    hide MigratedRow, Eligible;
    var done :| MigratedExactly(prim, key, profiles, before, partial, done);
    RemainingEligible(prim, key, profiles, before, partial, done);
    forall id | id in EligibleIds(profiles, before)
      ensures MigratedRow(prim, key, profiles, id, before[id], after[id])
    {
      if id in done {
        assert id !in EligibleIds(profiles, partial);
        assert MigratedRow(prim, key, profiles, id, before[id], partial[id]);
      } else {
        assert id in EligibleIds(profiles, partial);
        assert MigratedRow(prim, key, profiles, id, partial[id], after[id]);
      }
    }
    forall id | id in before && id !in EligibleIds(profiles, before)
      ensures after[id] == before[id]
    {
      DoneWasEligible(prim, key, profiles, before, partial, done, id);
    }
  }

  lemma DoneWasEligible(prim: Primitives, key: string, profiles: seq<ProfileRow>, before: Items, partial: Items,
                        done: set<Bytes>, id: Bytes)
    requires MigratedExactly(prim, key, profiles, before, partial, done)
    ensures id in done ==> id in EligibleIds(profiles, before)
  {
    if id in done {
      assert MigratedRow(prim, key, profiles, id, before[id], partial[id]);
    }
  }

  /** A row that cannot be decrypted stops every run: after any part of the work the same
      rows still stop it. */
  lemma StillBlocked(prim: Primitives, key: string, profiles: seq<ProfileRow>, before: Items, partial: Items, id: Bytes)
    requires Progress(prim, key, profiles, before, partial)
    ensures Blocks(prim, key, profiles, partial, id) <==> Blocks(prim, key, profiles, before, id)
  {
    hide Target, Meaning, Complete;
    var done :| MigratedExactly(prim, key, profiles, before, partial, done);
    if id in done {
      assert MigratedRow(prim, key, profiles, id, before[id], partial[id]);
    }
  }

  /** The guarded write after other writers had their turn: the row was selected as `read`
      and is `current` when it is written. What the row then says is what it said just
      before exactly when it had been bound meanwhile or still said what was selected; so
      the guard on the profile does not protect a change of content alone. */
  lemma GuardedBindExact(prim: Primitives, key: string, profiles: seq<ProfileRow>, id: Bytes, read: ItemRow,
                         current: ItemRow, plaintext: Bytes, iv: Bytes, now: int)
    requires prim.Ideal() && iv != [] && Eligible(profiles, read) && Meaning(prim, key, id, read) == Some(plaintext)
    requires Complete(current) && current.organizationId == read.organizationId
    ensures var target := Target(profiles, read.organizationId).value;
            var aad := ServerContent(read.organizationId, ProfileIdForServerAad(Some(target)), id,
                                     SERVER_AAD_MIN_VERSION);
            var sealed := ServerEncrypted(prim, plaintext, key, SERVER_AAD_MIN_VERSION, Some(aad), iv);
            sealed.Ok?
            && var written := if current.profileId.None? then BoundRow(current, now, target, sealed.value) else current;
               Complete(written)
               && (Meaning(prim, key, id, written) == Meaning(prim, key, id, current)
                   <==> current.profileId.Some? || Meaning(prim, key, id, current) == Some(plaintext))
  {
    hide Target, ServerDecrypted, ServerEncrypted, Base64.UrlSafe, Base64.Decoded;
    RebindPreserves(prim, key, profiles, id, read, plaintext, iv, now);
    var target := Target(profiles, read.organizationId).value;
    var aad := ServerContent(read.organizationId, ProfileIdForServerAad(Some(target)), id, SERVER_AAD_MIN_VERSION);
    var sealed := ServerEncrypted(prim, plaintext, key, SERVER_AAD_MIN_VERSION, Some(aad), iv).value;
    assert Meaning(prim, key, id, BoundRow(current, now, target, sealed))
        == Meaning(prim, key, id, BoundRow(read, now, target, sealed));
  }

  // ---- in terms of the rows ----------------------------------------------------------------

  /** A row reads as what was sealed: without additional data before version 2, and from
      then on under the organization, the profile (or the sentinel), the item and the
      version. */
  lemma SealedRowReads(prim: Primitives, key: string, id: Bytes, row: ItemRow, plaintext: Bytes, iv: Bytes,
                       version: int)
    requires prim.Ideal() && ImportKey(key).Some?
    requires var profile := match row.profileId case Some(p) => p case None => Ascii("__no_profile__");
             var aad := if version < 2 then None else Some(ServerContent(row.organizationId, profile, id, version));
             var item := ServerEncrypted(prim, plaintext, key, version, aad, iv);
             item.Ok? && row.serverCiphertext == Some(item.value.ciphertext) && row.serverIv == Some(item.value.iv)
             && row.serverKeyVersion == Some(version) && Complete(row)
    ensures Meaning(prim, key, id, row) == Some(plaintext)
  {
    hide Base64.UrlSafe, Base64.Decoded, Build, ServerDecrypted, Ascii;
    DecryptExact(prim, plaintext, key, version, RowAad(id, row), iv, key, RowAad(id, row));
  }

  /** After a finished run every undeleted server-managed row without a profile that has its
      content, its IV and its version, in an organization with a server-managed profile, is
      bound to the default one at version 2 and says what it said; the guard reads no other
      field. */
  lemma EveryRowBound(prim: Primitives, key: string, profiles: seq<ProfileRow>, before: Items, after: Items, id: Bytes,
                      q: ProfileRow)
    requires Finished(prim, key, profiles, before, after) && id in before
    requires q in profiles && q.organizationId == before[id].organizationId && q.serverManaged
    ensures var row, target := before[id], DefaultProfile(profiles, before[id].organizationId);
            id in after && target.Some?
            && if row.serverManaged && row.profileId.None? && !row.deleted
                  && row.serverCiphertext.Some? && row.serverCiphertext.value != ""
                  && row.serverIv.Some? && row.serverIv.value != "" && row.serverKeyVersion.Some?
                  && target.value.id != []
               then Complete(row) && Complete(after[id])
                    && after[id].profileId == Some(target.value.id) && after[id].serverKeyVersion == Some(2)
                    && Meaning(prim, key, id, row).Some?
                       && Meaning(prim, key, id, after[id]) == Meaning(prim, key, id, row)
               else after[id] == row
  {
    hide Meaning;
    DefaultProfileIs(profiles, before[id].organizationId, q);
    if id in EligibleIds(profiles, before) {
      assert MigratedRow(prim, key, profiles, id, before[id], after[id]);
    }
  }

  /** And a row of an organization without one stays as it is. */
  lemma NoProfileNoChange(prim: Primitives, key: string, profiles: seq<ProfileRow>, before: Items, after: Items,
                          id: Bytes)
    requires Finished(prim, key, profiles, before, after) && id in before
    requires forall q :: q in profiles && q.organizationId == before[id].organizationId ==> !q.serverManaged
    ensures id in after && after[id] == before[id]
  {
    hide Meaning;
  }

  /** The update statement writes these columns and no other. */
  lemma BoundRowColumns(row: ItemRow, now: int, profileId: Bytes, item: ServerItem)
    ensures var b := BoundRow(row, now, profileId, item);
            b.profileId == Some(profileId) && b.serverCiphertext == Some(item.ciphertext) && b.serverIv == Some(item.iv)
            && b.serverKeyVersion == Some(item.keyVersion) && b.updatedAt == now
            && b.organizationId == row.organizationId && b.serverManaged == row.serverManaged
               && b.deleted == row.deleted
            && b.contentVersion == row.contentVersion
  {}

  // ---- live updates meanwhile ------------------------------------------------------------

  /** What a live update of a row it read without a profile writes: the new payload sealed
      at version 2 for no profile. */
  function LiveSealed(prim: Primitives, key: string, id: Bytes, org: Bytes, payload: Bytes,
                      iv: Bytes): Result<ServerItem, ServerError> {
    ServerEncrypted(prim, payload, key, SERVER_AAD_MIN_VERSION,
                    Some(ServerContent(org, ProfileIdForServerAad(None), id, SERVER_AAD_MIN_VERSION)), iv)
  }

  /** The update statement, guarded by the content version alone. */
  function LiveUpdate(row: ItemRow, read: ItemRow, now: int, item: ServerItem): ItemRow {
    if row.contentVersion == read.contentVersion then
      row.(serverCiphertext := Some(item.ciphertext), serverIv := Some(item.iv), serverKeyVersion :=
             Some(item.keyVersion),
           contentVersion := read.contentVersion + 1, updatedAt := now)
    else row
  }

  lemma LiveSealedExact(prim: Primitives, key: string, id: Bytes, row: ItemRow, read: ItemRow, payload: Bytes,
                        iv: Bytes, now: int)
    requires prim.Ideal() && iv != [] && ImportKey(key).Some? && row.organizationId == read.organizationId
    requires row.contentVersion == read.contentVersion
    requires NulFree(row.organizationId) && NulFree(id) && NulFree(ProfileIdForServerAad(row.profileId))
    ensures var sealed := LiveSealed(prim, key, id, read.organizationId, payload, iv);
            sealed.Ok? && Complete(LiveUpdate(row, read, now, sealed.value))
            && Meaning(prim, key, id, LiveUpdate(row, read, now, sealed.value))
               == if ProfileIdForServerAad(row.profileId) == ProfileIdForServerAad(None) then Some(payload) else None
  {
    hide Base64.UrlSafe, Base64.Decoded, Build, ServerDecrypted, Ascii;
    var org := read.organizationId;
    var aad := ServerContent(org, ProfileIdForServerAad(None), id, SERVER_AAD_MIN_VERSION);
    var aad' := ServerContent(org, ProfileIdForServerAad(row.profileId), id, SERVER_AAD_MIN_VERSION);
    SentinelNulFree();
    DecryptExact(prim, payload, key, SERVER_AAD_MIN_VERSION, Some(aad), iv, key, Some(aad'));
    AadExact(Some(aad'), Some(aad));
    SealedComplete(prim, key, payload, aad, iv);
    var sealed := LiveSealed(prim, key, id, org, payload, iv).value;
    var row' := LiveUpdate(row, read, now, sealed);
    assert RowAad(id, row') == Some(aad');
    assert ServerItem(row'.serverCiphertext.value, row'.serverIv.value, row'.serverKeyVersion.value) == sealed;
  }

  lemma SentinelNulFree()
    ensures NulFree(ProfileIdForServerAad(None))
  {}

  /** An update that comes between the select and the guarded write is lost: the row is then
      bound and says what it said when it was selected. */
  lemma LostUpdate(prim: Primitives, key: string, profiles: seq<ProfileRow>, id: Bytes, read: ItemRow, plaintext: Bytes,
                   payload: Bytes, liveIv: Bytes, iv: Bytes, now: int)
    requires prim.Ideal() && iv != [] && liveIv != [] && payload != plaintext
    requires Eligible(profiles, read) && Meaning(prim, key, id, read) == Some(plaintext)
    requires NulFree(read.organizationId) && NulFree(id)
    ensures var target := Target(profiles, read.organizationId).value;
            var live := LiveSealed(prim, key, id, read.organizationId, payload, liveIv);
            var aad := ServerContent(read.organizationId, ProfileIdForServerAad(Some(target)), id,
                                     SERVER_AAD_MIN_VERSION);
            var sealed := ServerEncrypted(prim, plaintext, key, SERVER_AAD_MIN_VERSION, Some(aad), iv);
            live.Ok? && sealed.Ok?
            && var current := LiveUpdate(read, read, now, live.value);
               var written := BoundRow(current, now, target, sealed.value);
               Complete(current) && Complete(written) && current.profileId.None?
               && Meaning(prim, key, id, current) == Some(payload)
               && Meaning(prim, key, id, written) == Some(plaintext)
               && written.contentVersion == read.contentVersion + 1
  {
    hide Target, Meaning, ServerDecrypted, ServerEncrypted, Base64.UrlSafe, Base64.Decoded, Ascii;
    RebindPreserves(prim, key, profiles, id, read, plaintext, iv, now);
    SentinelNulFree();
    DecryptedKey(prim, key, id, read);
    LiveSealedExact(prim, key, id, read, read, payload, liveIv, now);
    var live := LiveSealed(prim, key, id, read.organizationId, payload, liveIv).value;
    var target := Target(profiles, read.organizationId).value;
    var aad := ServerContent(read.organizationId, ProfileIdForServerAad(Some(target)), id, SERVER_AAD_MIN_VERSION);
    var sealed := ServerEncrypted(prim, plaintext, key, SERVER_AAD_MIN_VERSION, Some(aad), iv).value;
    SameContent(prim, key, id, BoundRow(LiveUpdate(read, read, now, live), now, target, sealed),
                BoundRow(read, now, target, sealed));
  }

  lemma SameContent(prim: Primitives, key: string, id: Bytes, a: ItemRow, b: ItemRow)
    requires Complete(a) && Complete(b) && a.organizationId == b.organizationId && a.profileId == b.profileId
    requires a.serverCiphertext == b.serverCiphertext && a.serverIv == b.serverIv
             && a.serverKeyVersion == b.serverKeyVersion
    ensures Meaning(prim, key, id, a) == Meaning(prim, key, id, b)
  {}

  /** The other way round: an update of a row it read without a profile is written when the
      row is `current`. If the content version moved, it changes nothing. If not, the row
      reads as the new payload exactly when it is still without a profile (or its profile
      has the sentinel for an id); otherwise it cannot be read any more. */
  lemma LateUpdateExact(prim: Primitives, key: string, id: Bytes, read: ItemRow, current: ItemRow, payload: Bytes,
                        iv: Bytes,
                        now: int)
    requires prim.Ideal() && iv != [] && ImportKey(key).Some? && read.profileId.None?
    requires current.organizationId == read.organizationId
    requires NulFree(read.organizationId) && NulFree(id) && NulFree(ProfileIdForServerAad(current.profileId))
    ensures var live := LiveSealed(prim, key, id, read.organizationId, payload, iv);
            live.Ok?
            && (current.contentVersion != read.contentVersion ==> LiveUpdate(current, read, now, live.value) == current)
            && (current.contentVersion == read.contentVersion ==>
                  Complete(LiveUpdate(current, read, now, live.value))
                  && Meaning(prim, key, id, LiveUpdate(current, read, now, live.value))
                     == if ProfileIdForServerAad(current.profileId) == ProfileIdForServerAad(None)
                       then Some(payload) else None)
  {
    hide Meaning;
    if current.contentVersion == read.contentVersion {
      LiveSealedExact(prim, key, id, current, read, payload, iv, now);
    }
  }

  /** Binding does not advance the content version. So a live update that read a row before
      the migration bound it, and is written after, leaves a row nobody can read. */
  lemma StaleUpdateLosesRow(prim: Primitives, key: string, profiles: seq<ProfileRow>, id: Bytes, read: ItemRow,
                            row: ItemRow,
                            payload: Bytes, iv: Bytes, now: int)
    requires prim.Ideal() && iv != [] && MigratedRow(prim, key, profiles, id, read, row)
    requires NulFree(read.organizationId) && NulFree(id) && NulFree(ProfileIdForServerAad(row.profileId))
    requires row.profileId != Some(ProfileIdForServerAad(None))
    ensures var live := LiveSealed(prim, key, id, read.organizationId, payload, iv);
            live.Ok?
            && var written := LiveUpdate(row, read, now, live.value);
               Complete(written) && Meaning(prim, key, id, row).Some? && Meaning(prim, key, id, written).None?
  {
    hide Meaning, Target, Ascii;
    DecryptedKey(prim, key, id, row);
    LiveSealedExact(prim, key, id, row, read, payload, iv, now);
  }

  /** A row that blocks: its content is not base64. */
  lemma UndecodableRowBlocks(prim: Primitives, key: string)
    ensures var profiles := [ProfileRow([1], [2], true, Some("default"), 0)];
            var row := ItemRow([2], None, true, false, Some("!"), Some("!"), Some(1), 1, 0);
            Blocks(prim, key, profiles, map[[3] := row], [3])
  {
    var profiles := [ProfileRow([1], [2], true, Some("default"), 0)];
    assert profiles[..0] == [];
    assert DefaultProfile(profiles, [2]) == Some(profiles[0]);
    var s := Base64.Replace(Base64.Replace("!", '-', '+'), '_', '/');
    assert s == "!";
    assert Base64.RemoveSpaces(s) == "!" by { assert s[1..] == ""; }
    assert Base64.IndexOf('!') == -1;
    assert Base64.Decoded("!") == None;
  }

  /** A second run changes nothing. */
  lemma SecondRunChangesNothing(prim: Primitives, key: string, profiles: seq<ProfileRow>, before: Items, after: Items,
                                again: Items)
    requires Finished(prim, key, profiles, before, after) && Finished(prim, key, profiles, after, again)
    ensures again == after && EligibleIds(profiles, after) == {}
  {
    hide MigratedRow, EligibleIds;
    RemainingEligible(prim, key, profiles, before, after, EligibleIds(profiles, before));
  }

  /** Two finished runs from the same table agree on every binding and every plaintext,
      whatever the random IVs were. */
  lemma FinishedAgree(prim: Primitives, key: string, profiles: seq<ProfileRow>, before: Items, a: Items, b: Items,
                      id: Bytes)
    requires Finished(prim, key, profiles, before, a) && Finished(prim, key, profiles, before, b) && id in before
    ensures id in a && id in b
    ensures a[id].profileId == b[id].profileId && a[id].serverKeyVersion == b[id].serverKeyVersion
    ensures Complete(before[id]) ==> Complete(a[id]) && Complete(b[id])
                                     && Meaning(prim, key, id, a[id]) == Meaning(prim, key, id, b[id])
                                         == Meaning(prim, key, id, before[id])
  {
    hide Target, Meaning, ServerDecrypted;
    if id in EligibleIds(profiles, before) {
      assert MigratedRow(prim, key, profiles, id, before[id], a[id]);
      assert MigratedRow(prim, key, profiles, id, before[id], b[id]);
    }
  }
}
