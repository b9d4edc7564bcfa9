/** Batch ingestion of one uploaded list: every row of the batch is applied
    with the same upload time, rows without an account id are skipped, and
    the row counters are kept. Rows arrive already decoded. */
module Upload {
  import opened Wrappers
  import opened ListTypes
  import opened Records
  import opened Registry

  /** Characters `String.trim` strips: every code point up to U+0020. */
  predicate TrimStrips(c: char) {
    c <= ' '
  }

  /** The first index at or after `i` whose character is kept, or `|s|`. */
  function TrimStart(s: string, i: nat): (lo: nat)
    requires i <= |s|
    decreases |s| - i
    ensures i <= lo <= |s|
  {
    if i < |s| && TrimStrips(s[i]) then TrimStart(s, i + 1) else i
  }

  /** The end of `s[lo..hi]` once its trailing trimmed characters are cut. */
  function TrimEnd(s: string, lo: nat, hi: nat): (end: nat)
    requires lo <= hi <= |s|
    decreases hi
    ensures lo <= end <= hi
  {
    if hi > lo && TrimStrips(s[hi - 1]) then TrimEnd(s, lo, hi - 1) else hi
  }

  /** `String.trim`: skip leading trimmed characters, then cut trailing ones. */
  function Trim(s: string): (r: string)
    ensures |r| <= |s|
  {
    var lo := TrimStart(s, 0);
    s[lo..TrimEnd(s, lo, |s|)]
  }

  lemma {:induction false} TrimStartSkipsTrimmed(s: string, i: nat)
    requires i <= |s|
    decreases |s| - i
    ensures forall k :: i <= k < TrimStart(s, i) ==> TrimStrips(s[k])
    ensures TrimStart(s, i) == |s| || !TrimStrips(s[TrimStart(s, i)])
  {
    if i < |s| && TrimStrips(s[i]) {
      TrimStartSkipsTrimmed(s, i + 1);
    }
  }

  lemma {:induction false} TrimEndCutsTrimmed(s: string, lo: nat, hi: nat)
    requires lo <= hi <= |s|
    decreases hi
    ensures forall k :: TrimEnd(s, lo, hi) <= k < hi ==> TrimStrips(s[k])
    ensures TrimEnd(s, lo, hi) == lo || !TrimStrips(s[TrimEnd(s, lo, hi) - 1])
  {
    if hi > lo && TrimStrips(s[hi - 1]) {
      TrimEndCutsTrimmed(s, lo, hi - 1);
    }
  }

  /** Trimming only cuts trimmed characters off both ends: the result is a
      slice of `s` that starts and ends with a kept character, everything
      outside it is trimmed, and it is empty exactly when every character is
      trimmed. */
  lemma TrimIsSlice(s: string)
    ensures exists lo, hi :: 0 <= lo <= hi <= |s| && Trim(s) == s[lo..hi]
              && (forall k :: 0 <= k < lo ==> TrimStrips(s[k]))
              && (forall k :: hi <= k < |s| ==> TrimStrips(s[k]))
    ensures Trim(s) != [] ==> !TrimStrips(Trim(s)[0]) && !TrimStrips(Trim(s)[|Trim(s)| - 1])
    ensures Trim(s) == [] <==> forall k :: 0 <= k < |s| ==> TrimStrips(s[k])
  {
    var lo := TrimStart(s, 0);
    var hi := TrimEnd(s, lo, |s|);
    TrimStartSkipsTrimmed(s, 0);
    TrimEndCutsTrimmed(s, lo, |s|);
    assert Trim(s) == s[lo..hi];
  }

  /** One decoded row of the uploaded file. `Malformed` stands for a row
      whose AccountID or Reason field cannot be read, such as a row with too
      few fields; reading it throws, and the row is skipped. */
  datatype Row = Row(accountId: string, reason: string) | Malformed

  /** The account a row is applied to, or `None` when the row is skipped. */
  function RowAccount(row: Row): (a: Option<string>)
    ensures a.Some? ==> a.value != [] && row.Row? && a.value == Trim(row.accountId)
    ensures row.Row? && Trim(row.accountId) != [] ==> a.Some?
  {
    match row
    case Malformed => None
    case Row(id, _) => if Trim(id) == [] then None else Some(Trim(id))
  }

  /** The reason a row is applied with: its trimmed Reason field. */
  function RowReason(row: Row): string {
    match row
    case Malformed => ""
    case Row(_, reason) => Trim(reason)
  }

  /** A row with no readable account id, or one made only of trimmed
      characters, is skipped. */
  lemma SkippedRows(row: Row)
    ensures RowAccount(row).None? <==> row.Malformed? || forall i :: 0 <= i < |row.accountId| ==> TrimStrips(row.accountId[i])
  {
    if row.Row? {
      TrimIsSlice(row.accountId);
    }
  }

  /** Apply one row with the batch's variant and upload time. */
  function ApplyRow(reg: Store, listType: ListType, uploadTimestamp: Timestamp, row: Row): Store {
    match RowAccount(row)
    case Some(a) => ProcessRecord(reg, a, listType, uploadTimestamp, RowReason(row))
    case None => reg
  }

  /** The accounts the rows are applied to. */
  function Accounts(rows: seq<Row>): set<string>
    decreases |rows|
  {
    if rows == [] then {}
    else
      var last := RowAccount(rows[|rows| - 1]);
      Accounts(rows[..|rows| - 1]) + (if last.Some? then {last.value} else {})
  }

  /** An account belongs to the batch exactly when some row applies to it. */
  lemma {:induction false} AccountsMembers(rows: seq<Row>, a: string)
    decreases |rows|
    ensures a in Accounts(rows) <==> exists k :: 0 <= k < |rows| && RowAccount(rows[k]) == Some(a)
  {
    if rows != [] {
      var prefix := rows[..|rows| - 1];
      AccountsMembers(prefix, a);
      assert forall k :: 0 <= k < |prefix| ==> prefix[k] == rows[k];
      if RowAccount(rows[|rows| - 1]) == Some(a) {
        assert exists k :: 0 <= k < |rows| && RowAccount(rows[k]) == Some(a);
      }
    }
  }

  /** Apply the rows in file order, all with the same upload time. */
  function ApplyRows(reg: Store, listType: ListType, uploadTimestamp: Timestamp, rows: seq<Row>): (r: Store)
    decreases |rows|
    ensures r.Keys == reg.Keys + Accounts(rows)
  {
    if rows == [] then
      reg
    else
      ApplyRow(ApplyRows(reg, listType, uploadTimestamp, rows[..|rows| - 1]), listType, uploadTimestamp, rows[|rows| - 1])
  }

  /** How many rows are applied. */
  function CountProcessed(rows: seq<Row>): (n: nat)
    ensures n <= |rows|
  {
    if rows == [] then 0
    else CountProcessed(rows[..|rows| - 1]) + (if RowAccount(rows[|rows| - 1]).Some? then 1 else 0)
  }

  /** The rows that are applied, in file order. */
  function Processable(rows: seq<Row>): (ps: seq<Row>)
    ensures |ps| <= |rows|
  {
    if rows == [] then []
    else
      var prefix := Processable(rows[..|rows| - 1]);
      if RowAccount(rows[|rows| - 1]).Some? then prefix + [rows[|rows| - 1]] else prefix
  }

  /** The filter keeps exactly the counted rows. */
  lemma {:induction false} ProcessableCounted(rows: seq<Row>)
    decreases |rows|
    ensures |Processable(rows)| == CountProcessed(rows)
  {
    if rows != [] {
      ProcessableCounted(rows[..|rows| - 1]);
    }
  }

  datatype UploadResponse = UploadResponse(
    listType: ListType,
    success: bool,
    totalRecords: nat,
    processedRecords: nat,
    skippedRecords: nat)

  /** The body of the row loop: a row with an account id is applied, any
      other row is reported as skipped and changes nothing. */
  method ProcessRow(reg: Store, listType: ListType, uploadTimestamp: Timestamp, row: Row)
    returns (r: Store, applied: bool)
    ensures r == ApplyRow(reg, listType, uploadTimestamp, row)
    ensures applied <==> RowAccount(row).Some?
    ensures !applied ==> r == reg
    ensures applied ==> r.Keys == reg.Keys + {RowAccount(row).value}
  {
    match RowAccount(row)
    case None =>
      r, applied := reg, false;
    case Some(accountId) =>
      r := ProcessRecord(reg, accountId, listType, uploadTimestamp, RowReason(row));
      applied := true;
  }

  /** `uploadList` over decoded rows: applies every row with the one upload
      time and reports the row counters. `decodeFails` says that the decoder
      throws once it has yielded `rows` (an unreadable file, or a decoding
      error in the middle of it): the rows already applied stay applied, and
      the response reports failure with every counter still zero. */
  method UploadList(reg: Store, listType: ListType, uploadTimestamp: Timestamp, rows: seq<Row>, decodeFails: bool)
    returns (r: Store, response: UploadResponse)
    ensures r == ApplyRows(reg, listType, uploadTimestamp, rows)
    ensures r.Keys == reg.Keys + Accounts(rows)
    ensures response.listType == listType
    ensures response.success <==> !decodeFails
    ensures response.totalRecords == response.processedRecords + response.skippedRecords
    ensures decodeFails ==> response.totalRecords == 0
    ensures !decodeFails ==> response.totalRecords == |rows|
    ensures !decodeFails ==> response.processedRecords == CountProcessed(rows)
  {
    var totalRecords, processedRecords, skippedRecords := 0, 0, 0;
    r := reg;
    for i := 0 to |rows|
      invariant totalRecords == i
      invariant processedRecords + skippedRecords == i
      invariant processedRecords == CountProcessed(rows[..i])
      invariant r == ApplyRows(reg, listType, uploadTimestamp, rows[..i])
    {
      RowsStep(reg, listType, uploadTimestamp, rows, i);
      totalRecords := totalRecords + 1;
      var applied;
      r, applied := ProcessRow(r, listType, uploadTimestamp, rows[i]);
      if applied {
        processedRecords := processedRecords + 1;
      } else {
        skippedRecords := skippedRecords + 1;
      }
    }
    assert rows[..|rows|] == rows;
    if decodeFails {
      response := UploadResponse(listType, false, 0, 0, 0);
    } else {
      response := UploadResponse(listType, true, totalRecords, processedRecords, skippedRecords);
    }
  }

  /** One more row of the batch: the fold and the filter advance by that row. */
  lemma RowsStep(reg: Store, listType: ListType, uploadTimestamp: Timestamp, rows: seq<Row>, i: nat)
    requires i < |rows|
    ensures ApplyRows(reg, listType, uploadTimestamp, rows[..i + 1])
         == ApplyRow(ApplyRows(reg, listType, uploadTimestamp, rows[..i]), listType, uploadTimestamp, rows[i])
    ensures CountProcessed(rows[..i + 1]) == CountProcessed(rows[..i]) + (if RowAccount(rows[i]).Some? then 1 else 0)
  {
    assert rows[..i + 1][..i] == rows[..i];
  }

  /** Skipped rows have no effect: applying only the processable rows gives
      the same registry. */
  lemma {:induction false} SkippedRowsNoEffect(reg: Store, listType: ListType, uploadTimestamp: Timestamp, rows: seq<Row>)
    decreases |rows|
    ensures ApplyRows(reg, listType, uploadTimestamp, Processable(rows)) == ApplyRows(reg, listType, uploadTimestamp, rows)
  {
    if rows != [] {
      var prefix := rows[..|rows| - 1];
      var last := rows[|rows| - 1];
      SkippedRowsNoEffect(reg, listType, uploadTimestamp, prefix);
      if RowAccount(last).Some? {
        var ps := Processable(prefix) + [last];
        assert ps[..|ps| - 1] == Processable(prefix);
      }
    }
  }

  /** Applying one row keeps the registry invariant. */
  lemma ApplyRowPreservesWellFormed(reg: Store, listType: ListType, uploadTimestamp: Timestamp, row: Row)
    requires WellFormed(reg)
    ensures WellFormed(ApplyRow(reg, listType, uploadTimestamp, row))
  {
    if RowAccount(row).Some? {
      ProcessRecordPreservesWellFormed(reg, RowAccount(row).value, listType, uploadTimestamp, RowReason(row));
    }
  }

  /** Applying a batch keeps the registry invariant. */
  lemma {:induction false} ApplyRowsPreservesWellFormed(reg: Store, listType: ListType, uploadTimestamp: Timestamp, rows: seq<Row>)
    requires WellFormed(reg)
    decreases |rows|
    ensures WellFormed(ApplyRows(reg, listType, uploadTimestamp, rows))
  {
    if rows != [] {
      var prefix := rows[..|rows| - 1];
      ApplyRowsPreservesWellFormed(reg, listType, uploadTimestamp, prefix);
      ApplyRowPreservesWellFormed(ApplyRows(reg, listType, uploadTimestamp, prefix), listType, uploadTimestamp, rows[|rows| - 1]);
    }
  }

  /** A row for another account, or a skipped row, leaves an account's
      records untouched. */
  lemma OtherRowFrame(reg: Store, listType: ListType, uploadTimestamp: Timestamp, row: Row, a: string)
    requires RowAccount(row) != Some(a)
    ensures GetAccountRecords(ApplyRow(reg, listType, uploadTimestamp, row), a) == GetAccountRecords(reg, a)
  {
  }

  /** Rows for other accounts leave an account's records untouched. */
  lemma {:induction false} OtherRowsFrame(reg: Store, listType: ListType, uploadTimestamp: Timestamp, rows: seq<Row>, a: string)
    requires forall k :: 0 <= k < |rows| ==> RowAccount(rows[k]) != Some(a)
    decreases |rows|
    ensures GetAccountRecords(ApplyRows(reg, listType, uploadTimestamp, rows), a) == GetAccountRecords(reg, a)
  {
    if rows != [] {
      var prefix := rows[..|rows| - 1];
      assert forall k :: 0 <= k < |prefix| ==> prefix[k] == rows[k];
      OtherRowsFrame(reg, listType, uploadTimestamp, prefix, a);
      OtherRowFrame(ApplyRows(reg, listType, uploadTimestamp, prefix), listType, uploadTimestamp, rows[|rows| - 1], a);
    }
  }

  /** A row for an account leaves a record of the batch's variant stamped at
      or after the batch time, exactly at it for a delist. */
  lemma OwnRowStamps(reg: Store, listType: ListType, uploadTimestamp: Timestamp, row: Row, a: string)
    requires RowAccount(row) == Some(a)
    ensures var r := ApplyRow(reg, listType, uploadTimestamp, row);
      && a in r && listType in r[a]
      && r[a][listType].uploadTimestamp >= uploadTimestamp
      && (listType.IsDelist() ==> r[a][listType] == NewRecord(a, listType, uploadTimestamp, RowReason(row)))
  {
  }

  /** An applied row stores its trimmed Reason field whenever its record is
      stored: always for a delist, and for an add when its slot was empty or
      older. The stored reason neither starts nor ends with a character at or
      below U+0020. */
  lemma ApplyRowStoresReason(reg: Store, listType: ListType, uploadTimestamp: Timestamp, row: Row, a: string)
    requires RowAccount(row) == Some(a)
    requires listType.IsDelist() || Supersedes(GetAccountRecords(reg, a), listType, uploadTimestamp)
    ensures var r := ApplyRow(reg, listType, uploadTimestamp, row);
      && a in r && listType in r[a]
      && r[a][listType] == NewRecord(a, listType, uploadTimestamp, Trim(row.reason))
    ensures var s := Trim(row.reason);
      s == [] || (!TrimStrips(s[0]) && !TrimStrips(s[|s| - 1]))
  {
    TrimIsSlice(row.reason);
  }

  /** Every account of the batch ends up holding a record of the batch's
      variant stamped at or after the batch time; for a delist batch it is
      stamped exactly at the batch time. */
  lemma {:induction false} BatchStampsShared(reg: Store, listType: ListType, uploadTimestamp: Timestamp, rows: seq<Row>, a: string)
    requires a in Accounts(rows)
    decreases |rows|
    ensures var r := ApplyRows(reg, listType, uploadTimestamp, rows);
      && a in r && listType in r[a]
      && r[a][listType].uploadTimestamp >= uploadTimestamp
      && (listType.IsDelist() ==> r[a][listType].uploadTimestamp == uploadTimestamp)
  {
    var prefix := rows[..|rows| - 1];
    var last := rows[|rows| - 1];
    var before := ApplyRows(reg, listType, uploadTimestamp, prefix);
    if RowAccount(last) == Some(a) {
      OwnRowStamps(before, listType, uploadTimestamp, last, a);
    } else {
      AccountsMembers(rows, a);
      var k :| 0 <= k < |rows| && RowAccount(rows[k]) == Some(a);
      assert k < |prefix| && prefix[k] == rows[k];
      AccountsMembers(prefix, a);
      BatchStampsShared(reg, listType, uploadTimestamp, prefix, a);
      OtherRowFrame(before, listType, uploadTimestamp, last, a);
    }
  }

  /** An add row at or before the stored time of its slot changes nothing. */
  lemma SameTimeAddDropped(reg: Store, listType: ListType, uploadTimestamp: Timestamp, row: Row, a: string)
    requires !listType.IsDelist() && RowAccount(row) == Some(a)
    requires a in reg && listType in reg[a] && reg[a][listType].uploadTimestamp >= uploadTimestamp
    ensures ApplyRow(reg, listType, uploadTimestamp, row) == reg
  {
    var r := ApplyRow(reg, listType, uploadTimestamp, row);
    assert r[a] == reg[a];
  }

  /** In an add batch the first row for an account wins: later rows carry
      the same upload time, which is not newer. */
  lemma {:induction false} AddBatchKeepsFirst(reg: Store, listType: ListType, uploadTimestamp: Timestamp, rows: seq<Row>, a: string, i: nat)
    requires !listType.IsDelist()
    requires Supersedes(GetAccountRecords(reg, a), listType, uploadTimestamp)
    requires i < |rows| && RowAccount(rows[i]) == Some(a)
    requires forall k :: 0 <= k < i ==> RowAccount(rows[k]) != Some(a)
    decreases |rows|
    ensures var r := ApplyRows(reg, listType, uploadTimestamp, rows);
      a in r && listType in r[a] && r[a][listType] == NewRecord(a, listType, uploadTimestamp, RowReason(rows[i]))
  {
    var prefix := rows[..|rows| - 1];
    var last := rows[|rows| - 1];
    assert forall k :: 0 <= k < |prefix| ==> prefix[k] == rows[k];
    var before := ApplyRows(reg, listType, uploadTimestamp, prefix);
    if i == |rows| - 1 {
      OtherRowsFrame(reg, listType, uploadTimestamp, prefix, a);
      ApplyRowStoresReason(before, listType, uploadTimestamp, last, a);
    } else {
      AddBatchKeepsFirst(reg, listType, uploadTimestamp, prefix, a, i);
      if RowAccount(last) == Some(a) {
        SameTimeAddDropped(before, listType, uploadTimestamp, last, a);
      } else {
        OtherRowFrame(before, listType, uploadTimestamp, last, a);
      }
    }
  }

  /** In a delist batch the last row for an account wins: every delist
      overwrites. */
  lemma {:induction false} DelistBatchKeepsLast(reg: Store, listType: ListType, uploadTimestamp: Timestamp, rows: seq<Row>, a: string, j: nat)
    requires listType.IsDelist()
    requires j < |rows| && RowAccount(rows[j]) == Some(a)
    requires forall k :: j < k < |rows| ==> RowAccount(rows[k]) != Some(a)
    decreases |rows|
    ensures var r := ApplyRows(reg, listType, uploadTimestamp, rows);
      a in r && listType in r[a] && r[a][listType] == NewRecord(a, listType, uploadTimestamp, RowReason(rows[j]))
  {
    var prefix := rows[..|rows| - 1];
    var last := rows[|rows| - 1];
    var before := ApplyRows(reg, listType, uploadTimestamp, prefix);
    if j == |rows| - 1 {
      OwnRowStamps(before, listType, uploadTimestamp, last, a);
    } else {
      assert forall k :: 0 <= k < |prefix| ==> prefix[k] == rows[k];
      DelistBatchKeepsLast(reg, listType, uploadTimestamp, prefix, a, j);
      OtherRowFrame(before, listType, uploadTimestamp, last, a);
    }
  }
}
