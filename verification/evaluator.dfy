/** The eligibility verdict derived from an account's stored records. */
module Evaluator {
  import opened Wrappers
  import opened ListTypes
  import opened Records
  import opened Registry

  /** One category that counts against the account, with the base record's
      reason and upload time. */
  datatype Reason = Reason(listType: ListType, reason: string, uploadTimestamp: Timestamp)

  /** The three verdict messages: no records stored, eligible although
      records are stored, and ineligible with the number of reasons. */
  datatype Message = NoRecordsFound | EligibleForLoan | Ineligible(reasonCount: nat)

  datatype EligibilityResult = EligibilityResult(
    accountId: string,
    eligible: bool,
    message: Message,
    reasons: seq<Reason>)

  /** Reference definition: base category `b` counts against the account when
      its base record exists, is active, and no delist is at or after it. */
  predicate Contributes(acct: AccountRecords, b: ListType)
    requires !b.IsDelist()
  {
    var d := DelistOf(b);
    && b in acct
    && acct[b].active
    && (d !in acct || acct[b].uploadTimestamp > acct[d].uploadTimestamp)
  }

  /** `isIneligibleForListType` on the (possibly absent) base and delist records. */
  function IsIneligibleForListType(base: Option<Record>, delist: Option<Record>): (r: bool)
    ensures r <==> base.Some? && base.value.active
                   && (delist.None? || base.value.uploadTimestamp > delist.value.uploadTimestamp)
    ensures base.Some? && delist.Some? && delist.value.uploadTimestamp == base.value.uploadTimestamp ==> !r
  {
    if base.None? then
      false
    else if delist.None? then
      base.value.active
    else
      IsAfter(base.value.uploadTimestamp, delist.value.uploadTimestamp) && base.value.active
  }

  /** The reason entry carries the stored base record's reason and timestamp. */
  predicate CarriesBase(acct: AccountRecords, r: Reason) {
    r.listType in acct && r.reason == acct[r.listType].reason && r.uploadTimestamp == acct[r.listType].uploadTimestamp
  }

  predicate HasReasonFor(rs: seq<Reason>, b: ListType) {
    exists k :: 0 <= k < |rs| && rs[k].listType == b
  }

  /** Strictly increasing by enum ordinal: in category order, no repeats. */
  predicate InCategoryOrder(rs: seq<Reason>) {
    forall k1, k2 :: 0 <= k1 < k2 < |rs| ==> rs[k1].listType.Ordinal() < rs[k2].listType.Ordinal()
  }

  /** The reasons for the base categories `BaseOrder[i..]`, walked in order. */
  function ReasonsFrom(acct: AccountRecords, i: nat): (rs: seq<Reason>)
    requires i <= |BaseOrder|
    decreases |BaseOrder| - i
    ensures |rs| <= |BaseOrder| - i
    ensures forall k :: 0 <= k < |rs| ==> !rs[k].listType.IsDelist() && i <= rs[k].listType.Ordinal()
    ensures InCategoryOrder(rs)
    ensures forall k :: 0 <= k < |rs| ==> CarriesBase(acct, rs[k]) && Contributes(acct, rs[k].listType)
  {
    if i == |BaseOrder| then
      []
    else
      var b := BaseOrder[i];
      assert b.Ordinal() == i;
      var rest := ReasonsFrom(acct, i + 1);
      if IsIneligibleForListType(Get(acct, b), Get(acct, DelistOf(b))) then
        [Reason(b, acct[b].reason, acct[b].uploadTimestamp)] + rest
      else
        rest
  }

  /** One step of the walk: category `BaseOrder[i]` is reported first when
      it contributes. */
  lemma ReasonsFromHead(acct: AccountRecords, i: nat)
    requires i < |BaseOrder|
    requires Contributes(acct, BaseOrder[i])
    ensures ReasonsFrom(acct, i) != [] && ReasonsFrom(acct, i)[0].listType == BaseOrder[i]
  {
  }

  /** One step of the walk: the reasons of the rest of the walk are kept. */
  lemma ReasonsFromKeepsRest(acct: AccountRecords, i: nat, b: ListType)
    requires i < |BaseOrder|
    requires HasReasonFor(ReasonsFrom(acct, i + 1), b)
    ensures HasReasonFor(ReasonsFrom(acct, i), b)
  {
    var rs := ReasonsFrom(acct, i);
    var rest := ReasonsFrom(acct, i + 1);
    var k :| 0 <= k < |rest| && rest[k].listType == b;
    var shift := |rs| - |rest|;
    assert rs == rs[..shift] + rest;
    assert rs[k + shift] == rest[k];
  }

  /** Every contributing category of the walk gets a reason. */
  lemma {:induction false} ReasonsComplete(acct: AccountRecords, i: nat, j: nat)
    requires i <= j < |BaseOrder|
    requires Contributes(acct, BaseOrder[j])
    decreases j - i
    ensures HasReasonFor(ReasonsFrom(acct, i), BaseOrder[j])
  {
    if j == i {
      ReasonsFromHead(acct, i);
      assert ReasonsFrom(acct, i)[0].listType == BaseOrder[j];
    } else {
      ReasonsComplete(acct, i + 1, j);
      ReasonsFromKeepsRest(acct, i, BaseOrder[j]);
    }
  }

  /** The collected reasons are exactly the contributing categories. */
  lemma ReasonsExact(acct: AccountRecords, b: ListType)
    requires !b.IsDelist()
    ensures HasReasonFor(ReasonsFrom(acct, 0), b) <==> Contributes(acct, b)
  {
    BaseOrderComplete();
    var rs := ReasonsFrom(acct, 0);
    var j :| 0 <= j < |BaseOrder| && BaseOrder[j] == b;
    if Contributes(acct, b) {
      ReasonsComplete(acct, 0, j);
    }
    if HasReasonFor(rs, b) {
      var k :| 0 <= k < |rs| && rs[k].listType == b;
    }
  }

  /** `checkEligibility`: the verdict for one account. */
  function CheckEligibility(reg: Store, accountId: string): (res: EligibilityResult)
    ensures res.accountId == accountId
    ensures GetAccountRecords(reg, accountId) == map[] ==> res.eligible && res.reasons == [] && res.message == NoRecordsFound
    ensures res.eligible <==> res.reasons == []
    ensures res.message == NoRecordsFound <==> GetAccountRecords(reg, accountId) == map[]
    ensures res.eligible && GetAccountRecords(reg, accountId) != map[] ==> res.message == EligibleForLoan
    ensures !res.eligible ==> res.message == Ineligible(|res.reasons|)
    ensures |res.reasons| <= 5
    ensures InCategoryOrder(res.reasons)
    ensures forall k :: 0 <= k < |res.reasons| ==> !res.reasons[k].listType.IsDelist()
    ensures forall k :: 0 <= k < |res.reasons| ==> CarriesBase(GetAccountRecords(reg, accountId), res.reasons[k])
    ensures forall k :: 0 <= k < |res.reasons| ==> Contributes(GetAccountRecords(reg, accountId), res.reasons[k].listType)
    ensures forall b: ListType :: !b.IsDelist() ==> (HasReasonFor(res.reasons, b) <==> Contributes(GetAccountRecords(reg, accountId), b))
  {
    var acct := GetAccountRecords(reg, accountId);
    if acct == map[] then
      EligibilityResult(accountId, true, NoRecordsFound, [])
    else
      var reasons := ReasonsFrom(acct, 0);
      assert forall b: ListType :: !b.IsDelist() ==> (HasReasonFor(reasons, b) <==> Contributes(acct, b)) by {
        forall b: ListType | !b.IsDelist() ensures HasReasonFor(reasons, b) <==> Contributes(acct, b) {
          ReasonsExact(acct, b);
        }
      }
      if reasons == [] then
        EligibilityResult(accountId, true, EligibleForLoan, [])
      else
        EligibilityResult(accountId, false, Ineligible(|reasons|), reasons)
  }

  /** An account is eligible exactly when none of its base categories counts
      against it. */
  lemma EligibleIffNothingContributes(reg: Store, accountId: string)
    ensures CheckEligibility(reg, accountId).eligible
        <==> forall b: ListType :: !b.IsDelist() ==> !Contributes(GetAccountRecords(reg, accountId), b)
  {
    var res := CheckEligibility(reg, accountId);
    if !res.eligible {
      assert Contributes(GetAccountRecords(reg, accountId), res.reasons[0].listType);
    }
  }
}
