/** Read-only reporting over the registry, and the administrative reset. */
module Queries {
  import opened ListTypes
  import opened Records
  import opened Registry
  import opened Evaluator

  datatype Statistics = Statistics(totalAccounts: nat, recordsByListType: map<ListType, nat>)

  /** The accounts holding a record of variant `v`, active or not. */
  function Holders(reg: Store, v: ListType): set<string> {
    set a | a in reg && v in reg[a]
  }

  /** Count the accounts whose map holds variant `v`, visiting each once. */
  method CountHolders(reg: Store, v: ListType) returns (n: nat)
    ensures n == |Holders(reg, v)|
  {
    n := 0;
    var remaining := reg.Keys;
    ghost var counted: set<string> := {};
    while remaining != {}
      invariant remaining <= reg.Keys
      invariant counted == Holders(reg, v) - remaining
      invariant n == |counted|
      decreases remaining
    {
      var a :| a in remaining;
      if v in reg[a] {
        assert a !in counted;
        counted := counted + {a};
        n := n + 1;
      }
      remaining := remaining - {a};
    }
  }

  /** `getStatistics`: the number of registry keys, and per variant the number
      of accounts holding a record of it. */
  method GetStatistics(reg: Store) returns (stats: Statistics)
    ensures stats.totalAccounts == |reg|
    ensures forall v: ListType :: v in stats.recordsByListType && stats.recordsByListType[v] == |Holders(reg, v)|
  {
    var counts: map<ListType, nat> := map[];
    for i := 0 to |AllListTypes|
      invariant forall j :: 0 <= j < i ==> AllListTypes[j] in counts
      invariant forall v :: v in counts ==> counts[v] == |Holders(reg, v)|
    {
      var v := AllListTypes[i];
      var n := CountHolders(reg, v);
      counts := counts[v := n];
    }
    VariantsEnumerated();
    forall v: ListType ensures v in counts {
      assert AllListTypes[v.Ordinal()] == v;
    }
    stats := Statistics(|reg|, counts);
  }

  /** A variant is held by no more accounts than the registry has. */
  lemma HoldersBounded(reg: Store, v: ListType)
    ensures Holders(reg, v) <= reg.Keys
    ensures |Holders(reg, v)| <= |reg|
  {
    assert Holders(reg, v) <= reg.Keys;
    SubsetCardinality(Holders(reg, v), reg.Keys);
  }

  lemma {:induction false} SubsetCardinality<T>(a: set<T>, b: set<T>)
    requires a <= b
    ensures |a| <= |b|
    decreases b
  {
    if b != {} {
      var x :| x in b;
      SubsetCardinality(a - {x}, b - {x});
    }
  }

  /** Records are never removed: applying an event adds its account to the
      holders of its variant and leaves every other count as it was. */
  lemma HoldersAfterProcess(reg: Store, accountId: string, listType: ListType,
                            uploadTimestamp: Timestamp, reason: string, v: ListType)
    ensures Holders(ProcessRecord(reg, accountId, listType, uploadTimestamp, reason), v)
         == Holders(reg, v) + (if v == listType then {accountId} else {})
  {
    var r := ProcessRecord(reg, accountId, listType, uploadTimestamp, reason);
  }

  /** In a well-formed registry every key holds a non-empty map, so counting
      keys equals counting accounts that hold records. */
  lemma TotalCountsNonEmptyAccounts(reg: Store)
    requires WellFormed(reg)
    ensures reg.Keys == set a | a in reg && |reg[a]| > 0
  {
  }

  /** `clearAllData`: the registry becomes empty. */
  function ClearAllData(reg: Store): (r: Store)
    ensures |r| == 0
  {
    map[]
  }

  /** After a reset there are no accounts, no holders, and every account is
      eligible with no records found. */
  lemma ClearedRegistry(reg: Store, accountId: string, v: ListType)
    ensures WellFormed(ClearAllData(reg))
    ensures |Holders(ClearAllData(reg), v)| == 0
    ensures CheckEligibility(ClearAllData(reg), accountId) == EligibilityResult(accountId, true, NoRecordsFound, [])
  {
  }
}
