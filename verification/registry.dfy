/** The in-memory registry (account id -> variant -> latest record) and the
    add/delist conflict rule that is its only mutator. */
module Registry {
  import opened Wrappers
  import opened ListTypes
  import opened Records

  /** One account's latest record per variant. */
  type AccountRecords = map<ListType, Record>

  /** The whole registry, keyed by account id. */
  type Store = map<string, AccountRecords>

  /** `getAccountRecords`: the records held for an account; an unknown
      account holds none. */
  function GetAccountRecords(reg: Store, accountId: string): (acct: AccountRecords)
    ensures accountId in reg ==> acct == reg[accountId]
    ensures accountId !in reg ==> acct == map[]
  {
    if accountId in reg then reg[accountId] else map[]
  }

  /** Each record sits under its own variant and account, and delist records
      are never deactivated. */
  predicate WellFormedAccount(accountId: string, acct: AccountRecords) {
    && (forall v :: v in acct ==> acct[v].listType == v && acct[v].accountId == accountId)
    && (forall v :: v in acct && v.IsDelist() ==> acct[v].active)
  }

  /** The registry invariant: every materialised account holds at least one
      record, and every account's map is well formed. */
  predicate WellFormed(reg: Store) {
    forall a :: a in reg ==> |reg[a]| > 0 && WellFormedAccount(a, reg[a])
  }

  /** Whether a base event at `uploadTimestamp` supersedes what is stored. */
  predicate Supersedes(acct: AccountRecords, listType: ListType, uploadTimestamp: Timestamp) {
    listType !in acct || IsAfter(uploadTimestamp, acct[listType].uploadTimestamp)
  }

  /** An add event: stored only when the slot is empty or the event is
      strictly newer; otherwise dropped. The check of the paired delist that
      follows in the source returns without effect and is not repeated. */
  function ProcessIneligibilityRecord(acct: AccountRecords, accountId: string, listType: ListType,
                                      uploadTimestamp: Timestamp, reason: string): (r: AccountRecords)
    ensures r.Keys == acct.Keys + {listType}
    ensures forall v :: v in acct && v != listType ==> r[v] == acct[v]
    ensures r[listType].uploadTimestamp ==
            if listType in acct && acct[listType].uploadTimestamp >= uploadTimestamp
            then acct[listType].uploadTimestamp else uploadTimestamp
    ensures Supersedes(acct, listType, uploadTimestamp) ==> r[listType] == NewRecord(accountId, listType, uploadTimestamp, reason)
    ensures !Supersedes(acct, listType, uploadTimestamp) ==> r == acct
  {
    if Supersedes(acct, listType, uploadTimestamp) then
      acct[listType := NewRecord(accountId, listType, uploadTimestamp, reason)]
    else
      acct
  }

  /** A delist event: always overwrites the delist slot, and deactivates the
      paired base record when the delist is strictly newer than it. */
  function ProcessDelistRecord(acct: AccountRecords, accountId: string, delistType: ListType,
                               uploadTimestamp: Timestamp, reason: string): (r: AccountRecords)
    ensures r.Keys == acct.Keys + {delistType}
    ensures r[delistType] == NewRecord(accountId, delistType, uploadTimestamp, reason)
    ensures delistType.IsDelist() ==>
      var b := BaseOf(delistType);
      b in acct ==> r[b] == SetActive(acct[b], acct[b].active && !IsAfter(uploadTimestamp, acct[b].uploadTimestamp))
    ensures forall v :: v in acct && v != delistType && Some(v) != delistType.IneligibilityType() ==> r[v] == acct[v]
  {
    var withDelist := acct[delistType := NewRecord(accountId, delistType, uploadTimestamp, reason)];
    match delistType.IneligibilityType()
    case Some(b) =>
      if b in withDelist && IsAfter(uploadTimestamp, withDelist[b].uploadTimestamp) then
        withDelist[b := SetActive(withDelist[b], false)]
      else
        withDelist
    case None => withDelist
  }

  /** `processRecord`: materialise the account, then dispatch on the variant. */
  function ProcessRecord(reg: Store, accountId: string, listType: ListType,
                         uploadTimestamp: Timestamp, reason: string): (r: Store)
    ensures r.Keys == reg.Keys + {accountId}
    ensures forall a :: a in reg && a != accountId ==> r[a] == reg[a]
    ensures r[accountId].Keys == GetAccountRecords(reg, accountId).Keys + {listType}
  {
    var acct := GetAccountRecords(reg, accountId);
    var updated :=
      if listType.IsDelist() then ProcessDelistRecord(acct, accountId, listType, uploadTimestamp, reason)
      else ProcessIneligibilityRecord(acct, accountId, listType, uploadTimestamp, reason);
    reg[accountId := updated]
  }

  /** Applying an add event keeps one account's map well formed. */
  lemma AddPreservesWellFormedAccount(acct: AccountRecords, accountId: string, listType: ListType,
                                      uploadTimestamp: Timestamp, reason: string)
    requires WellFormedAccount(accountId, acct)
    requires !listType.IsDelist()
    ensures WellFormedAccount(accountId, ProcessIneligibilityRecord(acct, accountId, listType, uploadTimestamp, reason))
  {
  }

  /** Applying a delist event keeps one account's map well formed. */
  lemma DelistPreservesWellFormedAccount(acct: AccountRecords, accountId: string, listType: ListType,
                                         uploadTimestamp: Timestamp, reason: string)
    requires WellFormedAccount(accountId, acct)
    requires listType.IsDelist()
    ensures WellFormedAccount(accountId, ProcessDelistRecord(acct, accountId, listType, uploadTimestamp, reason))
  {
    var r := ProcessDelistRecord(acct, accountId, listType, uploadTimestamp, reason);
    var b := BaseOf(listType);
    forall v | v in r
      ensures r[v].listType == v && r[v].accountId == accountId
      ensures v.IsDelist() ==> r[v].active
    {
      if v != listType && v != b {
        assert v in acct;
      }
    }
  }

  /** Applying any event keeps the registry invariant. */
  lemma ProcessRecordPreservesWellFormed(reg: Store, accountId: string, listType: ListType,
                                         uploadTimestamp: Timestamp, reason: string)
    requires WellFormed(reg)
    ensures WellFormed(ProcessRecord(reg, accountId, listType, uploadTimestamp, reason))
  {
    var r := ProcessRecord(reg, accountId, listType, uploadTimestamp, reason);
    var acct := GetAccountRecords(reg, accountId);
    assert WellFormedAccount(accountId, acct);
    if listType.IsDelist() {
      DelistPreservesWellFormedAccount(acct, accountId, listType, uploadTimestamp, reason);
    } else {
      AddPreservesWellFormedAccount(acct, accountId, listType, uploadTimestamp, reason);
    }
    assert listType in r[accountId].Keys;
    assert |r[accountId]| > 0;
    forall a | a in r
      ensures |r[a]| > 0 && WellFormedAccount(a, r[a])
    {
      if a != accountId {
        assert r[a] == reg[a];
      }
    }
  }

  /** An add event ignores every other slot, the paired delist included: the
      outcome for a slot-`v` change is the same before or after it. */
  lemma AddIgnoresOtherSlots(acct: AccountRecords, accountId: string, listType: ListType,
                             uploadTimestamp: Timestamp, reason: string, v: ListType, x: Record)
    requires v != listType
    ensures ProcessIneligibilityRecord(acct[v := x], accountId, listType, uploadTimestamp, reason)
         == ProcessIneligibilityRecord(acct, accountId, listType, uploadTimestamp, reason)[v := x]
  {
  }

  /** An add event can make an inactive slot active only by replacing it
      with a strictly newer record. */
  lemma AddNeverResurrects(acct: AccountRecords, accountId: string, listType: ListType,
                           uploadTimestamp: Timestamp, reason: string, v: ListType)
    requires !listType.IsDelist()
    requires v in acct && !acct[v].active
    ensures var u := ProcessIneligibilityRecord(acct, accountId, listType, uploadTimestamp, reason);
      v in u && (u[v].active ==> IsAfter(u[v].uploadTimestamp, acct[v].uploadTimestamp))
  {
  }

  /** A delist event never makes an inactive base slot active. */
  lemma DelistNeverResurrects(acct: AccountRecords, accountId: string, listType: ListType,
                              uploadTimestamp: Timestamp, reason: string, v: ListType)
    requires listType.IsDelist() && !v.IsDelist()
    requires v in acct && !acct[v].active
    ensures var u := ProcessDelistRecord(acct, accountId, listType, uploadTimestamp, reason);
      v in u && !u[v].active
  {
    if Some(v) != listType.IneligibilityType() {
      assert v != listType;
    }
  }

  /** A stored record that is inactive can only become active again by being
      replaced with a strictly newer one; a record that `equals` the old one
      therefore stays inactive. */
  lemma ActiveNeverResurrected(reg: Store, accountId: string, listType: ListType,
                               uploadTimestamp: Timestamp, reason: string, a: string, v: ListType)
    requires WellFormed(reg)
    requires a in reg && v in reg[a] && !reg[a][v].active
    ensures var r := ProcessRecord(reg, accountId, listType, uploadTimestamp, reason);
      && v in r[a]
      && (r[a][v].active ==> IsAfter(r[a][v].uploadTimestamp, reg[a][v].uploadTimestamp))
      && (SameRecord(r[a][v], reg[a][v]) ==> !r[a][v].active)
  {
    if a == accountId {
      var acct := reg[a];
      assert WellFormedAccount(a, acct);
      if listType.IsDelist() {
        assert !v.IsDelist();
        DelistNeverResurrects(acct, accountId, listType, uploadTimestamp, reason, v);
      } else {
        AddNeverResurrects(acct, accountId, listType, uploadTimestamp, reason, v);
      }
    }
  }
}
