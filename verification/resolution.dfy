/** How an add event and its paired delist event resolve, whichever arrives
    first, as seen by the evaluator. */
module Resolution {
  import opened ListTypes
  import opened Records
  import opened Registry
  import opened Evaluator

  /** The base slot of `b` for account `a` is empty or strictly older than `t`,
      so an add event at `t` is stored. */
  predicate FreshBase(reg: Store, a: string, b: ListType, t: Timestamp) {
    Supersedes(GetAccountRecords(reg, a), b, t)
  }

  /** Add at `t1`, then delist at `t2`: the base keeps its reason and time,
      is deactivated exactly when `t2 > t1`, and counts against the account
      exactly when `t1 > t2` (an equal-time delist clears without deactivating). */
  lemma AddThenDelist(reg: Store, a: string, b: ListType, t1: Timestamp, r1: string, t2: Timestamp, r2: string)
    requires !b.IsDelist()
    requires FreshBase(reg, a, b, t1)
    ensures var s := ProcessRecord(ProcessRecord(reg, a, b, t1, r1), a, DelistOf(b), t2, r2);
      && b in s[a]
      && s[a][b].reason == r1 && s[a][b].uploadTimestamp == t1
      && (s[a][b].active <==> t2 <= t1)
      && (Contributes(s[a], b) <==> t1 > t2)
  {
    var s1: Store := ProcessRecord(reg, a, b, t1, r1);
    assert s1[a][b] == NewRecord(a, b, t1, r1);
    var s: Store := ProcessRecord(s1, a, DelistOf(b), t2, r2);
    assert s[a][DelistOf(b)].uploadTimestamp == t2;
  }

  /** Delist at `t2`, then add at `t1`: the new base is stored active and
      counts against the account exactly when `t1 > t2`. */
  lemma DelistThenAdd(reg: Store, a: string, b: ListType, t1: Timestamp, r1: string, t2: Timestamp, r2: string)
    requires !b.IsDelist()
    requires FreshBase(reg, a, b, t1)
    ensures var s := ProcessRecord(ProcessRecord(reg, a, DelistOf(b), t2, r2), a, b, t1, r1);
      && b in s[a]
      && s[a][b] == NewRecord(a, b, t1, r1)
      && (Contributes(s[a], b) <==> t1 > t2)
  {
    var s1: Store := ProcessRecord(reg, a, DelistOf(b), t2, r2);
    assert FreshBase(s1, a, b, t1);
    var s: Store := ProcessRecord(s1, a, b, t1, r1);
    assert s[a][DelistOf(b)] == s1[a][DelistOf(b)];
  }

  /** The verdict for a category does not depend on which of an add/delist
      pair arrived first. When the add is stored, both orders count it
      exactly when `t1 > t2`; when it is stale, it is dropped in both orders
      and the delist acts on the same stored base. */
  lemma ArrivalOrderIrrelevant(reg: Store, a: string, b: ListType, t1: Timestamp, r1: string, t2: Timestamp, r2: string)
    requires !b.IsDelist()
    ensures Contributes(ProcessRecord(ProcessRecord(reg, a, b, t1, r1), a, DelistOf(b), t2, r2)[a], b)
        <==> Contributes(ProcessRecord(ProcessRecord(reg, a, DelistOf(b), t2, r2), a, b, t1, r1)[a], b)
  {
    if FreshBase(reg, a, b, t1) {
      AddThenDelist(reg, a, b, t1, r1, t2, r2);
      DelistThenAdd(reg, a, b, t1, r1, t2, r2);
    } else {
      StaleAddDropped(reg, a, b, t1, r1);
      var u1: Store := ProcessRecord(reg, a, DelistOf(b), t2, r2);
      assert u1[a][b].uploadTimestamp == reg[a][b].uploadTimestamp;
      StaleAddDropped(u1, a, b, t1, r1);
    }
  }

  /** An add event at or before the stored one leaves the registry as it was. */
  lemma StaleAddDropped(reg: Store, a: string, b: ListType, t: Timestamp, r: string)
    requires !b.IsDelist()
    requires a in reg && b in reg[a] && t <= reg[a][b].uploadTimestamp
    ensures ProcessRecord(reg, a, b, t, r) == reg
  {
    var s: Store := ProcessRecord(reg, a, b, t, r);
    assert s[a] == reg[a];
  }

  /** A delist event replaces the stored delist whatever its time. */
  lemma DelistAlwaysOverwrites(reg: Store, a: string, d: ListType, t: Timestamp, r: string)
    requires d.IsDelist()
    ensures ProcessRecord(reg, a, d, t, r)[a][d] == NewRecord(a, d, t, r)
  {
  }

  /** Reasons in category order name a category at most once: no two
      entries share a category, so entries that all name one category are at
      most one. */
  lemma OrderedReasonsDistinct(rs: seq<Reason>, b: ListType)
    requires InCategoryOrder(rs)
    ensures forall j, k :: 0 <= j < k < |rs| ==> rs[j].listType != rs[k].listType
    ensures (forall j :: 0 <= j < |rs| ==> rs[j].listType == b) ==> |rs| <= 1
  {
    if |rs| > 1 {
      assert rs[0].listType != rs[1].listType;
    }
  }

  /** When exactly one category counts against the account, the verdict is
      that category alone, with its base record's reason and time. */
  lemma SingleContributor(reg: Store, a: string, b: ListType)
    requires !b.IsDelist()
    requires Contributes(GetAccountRecords(reg, a), b)
    requires forall c: ListType :: !c.IsDelist() && c != b ==> !Contributes(GetAccountRecords(reg, a), c)
    ensures var acct := GetAccountRecords(reg, a);
      CheckEligibility(reg, a) == EligibilityResult(a, false, Ineligible(1), [Reason(b, acct[b].reason, acct[b].uploadTimestamp)])
  {
    var acct := GetAccountRecords(reg, a);
    var res := CheckEligibility(reg, a);
    var k :| 0 <= k < |res.reasons| && res.reasons[k].listType == b;
    forall j | 0 <= j < |res.reasons| ensures res.reasons[j].listType == b {
      assert Contributes(acct, res.reasons[j].listType);
    }
    OrderedReasonsDistinct(res.reasons, b);
    assert res.reasons == [Reason(b, acct[b].reason, acct[b].uploadTimestamp)];
  }

  /** A worked history: an account flagged once is ineligible for that flag alone. */
  lemma FlaggedOnce()
    ensures CheckEligibility(ProcessRecord(map[], "A1", Str, 20240101, "flagged"), "A1")
         == EligibilityResult("A1", false, Ineligible(1), [Reason(Str, "flagged", 20240101)])
  {
    var s1: Store := ProcessRecord(map[], "A1", Str, 20240101, "flagged");
    assert s1["A1"] == map[Str := NewRecord("A1", Str, 20240101, "flagged")];
    SingleContributor(s1, "A1", Str);
  }

  /** A worked history: the flag above, delisted a month later, clears. */
  lemma FlaggedThenCleared()
    ensures var s1 := ProcessRecord(map[], "A1", Str, 20240101, "flagged");
      CheckEligibility(ProcessRecord(s1, "A1", DStr, 20240201, "cleared"), "A1").eligible
  {
    var s1: Store := ProcessRecord(map[], "A1", Str, 20240101, "flagged");
    var s2: Store := ProcessRecord(s1, "A1", DStr, 20240201, "cleared");
    assert s2["A1"].Keys == {Str, DStr};
    AddThenDelist(map[], "A1", Str, 20240101, "flagged", 20240201, "cleared");
    EligibleIffNothingContributes(s2, "A1");
  }

  /** A worked history: a delist older than the flag does not clear it. */
  lemma EarlyDelistDoesNotClear()
    ensures var s := ProcessRecord(ProcessRecord(map[], "A2", Fdm, 20240301, "fraud flag"), "A2", DFdm, 20240201, "too early");
      && !CheckEligibility(s, "A2").eligible
      && HasReasonFor(CheckEligibility(s, "A2").reasons, Fdm)
  {
    var s: Store := ProcessRecord(ProcessRecord(map[], "A2", Fdm, 20240301, "fraud flag"), "A2", DFdm, 20240201, "too early");
    AddThenDelist(map[], "A2", Fdm, 20240301, "fraud flag", 20240201, "too early");
  }
}
