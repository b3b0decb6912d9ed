/** The spreadsheet-backed registration store (script.py:224-235, 266-384).
    Each operation reads the worksheet's values and then appends, inserts or
    deletes rows. Every operation is a method on the worksheet, proved to
    leave it holding a function of the values it found; the lemmas state
    what those functions guarantee. */
module Storage {
  import opened Text
  import opened Sheets

  const DuplicateMember := "Ce numéro de membre est déjà inscrit."
  const RegistrationFailed := "Erreur lors de l'inscription."

  /** What `insert_registration` returns: `(True, None)` or `(False, message)`. */
  datatype InsertResult = Inserted | Refused(message: string)

  /** One line of the registration listing, its four display columns in
      their fixed order. */
  datatype Registration = Registration(fullName: string, memberNumber: string,
                                       feeAcknowledged: string, registeredAt: string)

  /** A data frame as the store builds it from the worksheet: column labels
      and one record per data row. */
  datatype Frame = Frame(columns: seq<string>, records: seq<Row>)

  /** No two of the rows carry the same trimmed member number. */
  predicate UniqueMembers(rows: seq<Row>)
  {
    forall i, j :: 0 <= i < j < |rows| ==> MemberKey(rows[i]) != MemberKey(rows[j])
  }

  /** Sheet consistency: the header row comes first and no two data rows
      carry the same trimmed member number. */
  predicate Consistent(values: seq<Row>)
  {
    |values| >= 1 && values[0] == SheetHeaders && UniqueMembers(values[1..])
  }

  /** The member number a data row carries, trimmed. */
  function MemberKey(row: Row): string
  {
    Trim(CellAt(row, 1))
  }

  // ---------------------------------------------------------------- init

  /** `init_storage`: an empty sheet receives the header row; any other
      sheet has its first row replaced by it unless that row, each cell
      trimmed, already is the header row. The data rows stay as they were. */
  function InitializedAsWritten(values: seq<Row>): (r: seq<Row>)
    ensures |r| >= 1 && TrimAll(r[0]) == SheetHeaders
    ensures values == [] ==> r == [SheetHeaders]
    ensures values != [] ==> |r| == |values| && r[1..] == values[1..]
    ensures values != [] && TrimAll(values[0]) == SheetHeaders ==> r == values
  {
    SheetHeadersFacts();
    if values == [] then [SheetHeaders]
    else if TrimAll(values[0]) != SheetHeaders then [SheetHeaders] + values[1..]
    else values
  }

  /** The corrected `init_storage` (see the findings): the first row is
      replaced unless it is exactly the header row. */
  function Initialized(values: seq<Row>): (r: seq<Row>)
    ensures |r| >= 1 && r[0] == SheetHeaders
    ensures values == [] ==> r == [SheetHeaders]
    ensures values != [] ==> |r| == |values| && r[1..] == values[1..]
  {
    if values == [] then [SheetHeaders]
    else if values[0] != SheetHeaders then [SheetHeaders] + values[1..]
    else values
  }

  method InitStorage(ws: Worksheet)
    modifies ws
    ensures ws.rows == InitializedAsWritten(old(ws.rows))
  {
    var values := ws.GetAllValues();
    if values == [] {
      ws.AppendRow(SheetHeaders);
    } else if TrimAll(values[0]) != SheetHeaders {
      ws.DeleteRows(1);
      ws.InsertRow(SheetHeaders, 1);
    }
  }

  // --------------------------------------------------------------- count

  /** `max(len(values) - 1, 0)`: the number of rows below the header. */
  function Count(values: seq<Row>): nat
  {
    if |values| - 1 > 0 then |values| - 1 else 0
  }

  method CountRegistrations(ws: Worksheet) returns (n: nat)
    ensures n == Count(ws.rows)
    ensures ws.rows != [] ==> n == |ws.rows| - 1
    ensures ws.rows == [] ==> n == 0
  {
    var values := ws.GetAllValues();
    n := if |values| - 1 > 0 then |values| - 1 else 0;
  }

  // ----------------------------------------------------------- raw frame

  /** Position of the first column labelled `x`. */
  function IndexOf(s: seq<string>, x: string): (j: nat)
    requires x in s
    ensures j < |s| && s[j] == x
    ensures forall k :: 0 <= k < j ==> s[k] != x
  {
    if s[0] == x then 0 else 1 + IndexOf(s[1..], x)
  }

  /** The fee cell as the store normalises it: trimmed, with the words
      `True` and `False` turned into `1` and `0`. */
  function NormalizeFee(cell: string): (r: string)
    ensures r == "1" <==> Trim(cell) == "True" || Trim(cell) == "1"
    ensures r == "0" <==> Trim(cell) == "False" || Trim(cell) == "0"
    ensures Trim(cell) != "True" && Trim(cell) != "False" ==> r == Trim(cell)
  {
    var t := Trim(cell);
    if t == "True" then "1" else if t == "False" then "0" else t
  }

  /** The records with the cell in column `j` normalised as a fee cell. */
  function NormalizeColumn(records: seq<Row>, j: nat): (r: seq<Row>)
    ensures |r| == |records|
    ensures forall i :: 0 <= i < |records| ==>
              |r[i]| == |records[i]|
              && (forall k :: 0 <= k < |records[i]| && k != j ==> r[i][k] == records[i][k])
              && (j < |records[i]| ==> r[i][j] == NormalizeFee(records[i][j]))
  {
    seq(|records|, i requires 0 <= i < |records| =>
      if j < |records[i]| then records[i][j := NormalizeFee(records[i][j])] else records[i])
  }

  /** `_gsheets_df_raw`: with at most the header row the frame is empty and
      labelled with `SHEET_HEADERS`; otherwise the first row labels the
      columns, every other row is a record, and the fee column, when there is
      one, is normalised. */
  function RawFrame(values: seq<Row>): (df: Frame)
    ensures |values| <= 1 ==> df == Frame(SheetHeaders, [])
    ensures |values| > 1 ==> df.columns == values[0] && |df.records| == |values| - 1
    ensures |values| > 1 ==>
              forall i :: 0 <= i < |values| - 1 ==>
                |df.records[i]| == |values[i + 1]|
                && forall k :: 0 <= k < |values[i + 1]| ==>
                     df.records[i][k] ==
                       if FeeColumn in values[0] && k == IndexOf(values[0], FeeColumn)
                       then NormalizeFee(values[i + 1][k]) else values[i + 1][k]
  {
    if |values| <= 1 then Frame(SheetHeaders, [])
    else if FeeColumn in values[0] then
      Frame(values[0], NormalizeColumn(values[1..], IndexOf(values[0], FeeColumn)))
    else Frame(values[0], values[1..])
  }

  /** `df.empty`: no record or no column. */
  predicate Empty(df: Frame)
  {
    |df.records| == 0 || |df.columns| == 0
  }

  /** The value of record `i` in the column labelled `name`; a column the
      frame lacks reads as the empty string. */
  function Field(df: Frame, i: nat, name: string): string
    requires i < |df.records|
  {
    if name in df.columns then CellAt(df.records[i], IndexOf(df.columns, name)) else ""
  }

  // -------------------------------------------------------------- insert

  /** A header with the fee label twice: building the frame then raises, as
      the fee lookup yields several columns and has no string methods. */
  predicate FeeColumnTwice(values: seq<Row>)
  {
    |values| > 1 && multiset(values[0])[FeeColumn] > 1
  }

  /** What `insert_registration` answers on a sheet holding `values`. A frame
      that cannot be built, or one without exactly one member column (the
      member lookup then raises), makes the store report its generic error. */
  function InsertDecision(values: seq<Row>, member: string): InsertResult
  {
    var df := RawFrame(values);
    if FeeColumnTwice(values) then Refused(RegistrationFailed)
    else if Empty(df) then Inserted
    else if multiset(df.columns)[MemberColumn] != 1 then Refused(RegistrationFailed)
    else if exists i :: 0 <= i < |df.records| && Trim(Field(df, i, MemberColumn)) == Trim(member)
    then Refused(DuplicateMember)
    else Inserted
  }

  /** The row `insert_registration` appends, the fee flag written `1` or `0`. */
  function NewRow(name: string, member: string, fee: bool, timestamp: string): (row: Row)
    ensures |row| == 4 && row[0] == Trim(name) && row[1] == Trim(member) && row[3] == timestamp
    ensures row[2] == "1" <==> fee
    ensures row[2] == "0" <==> !fee
  {
    [Trim(name), Trim(member), if fee then "1" else "0", timestamp]
  }

  /** The appended row carries no padding in its name and member cells, is
      keyed by the trimmed member number, and its fee cell lists as itself. */
  lemma NewRowFacts(name: string, member: string, fee: bool, timestamp: string)
    ensures var row := NewRow(name, member, fee, timestamp);
            Unpadded(row[0]) && Unpadded(row[1]) && MemberKey(row) == Trim(member)
            && NormalizeFee(row[2]) == row[2]
  {
    TrimFacts(name);
    TrimFacts(member);
    TrimIdempotent(member);
    TrimUnpadded("1");
    TrimUnpadded("0");
  }

  /** The sheet after `insert_registration`. */
  function AfterInsert(values: seq<Row>, name: string, member: string, fee: bool, timestamp: string): seq<Row>
  {
    if InsertDecision(values, member) == Inserted then values + [NewRow(name, member, fee, timestamp)]
    else values
  }

  method InsertRegistration(ws: Worksheet, name: string, member: string, fee: bool, timestamp: string)
    returns (result: InsertResult)
    modifies ws
    ensures result == InsertDecision(old(ws.rows), member)
    ensures ws.rows == AfterInsert(old(ws.rows), name, member, fee, timestamp)
  {
    var values := ws.GetAllValues();
    if |values| > 1 && multiset(values[0])[FeeColumn] > 1 {
      return Refused(RegistrationFailed);
    }
    var df := RawFrame(values);
    if !Empty(df) {
      if multiset(df.columns)[MemberColumn] != 1 {
        return Refused(RegistrationFailed);
      }
      var target := Trim(member);
      if exists i :: 0 <= i < |df.records| && Trim(Field(df, i, MemberColumn)) == target {
        return Refused(DuplicateMember);
      }
    }
    ws.AppendRow([Trim(name), Trim(member), if fee then "1" else "0", timestamp]);
    result := Inserted;
  }

  // ------------------------------------------------------------- listing

  /** `get_registrations_df` without its date sort: one registration per
      record, in sheet order, each field read from its column. */
  function Listing(values: seq<Row>): (list: seq<Registration>)
    ensures |values| <= 1 ==> list == []
    ensures |values| > 1 && values[0] == [] ==> list == []
    ensures |values| > 1 && values[0] != [] ==> |list| == |values| - 1
  {
    var df := RawFrame(values);
    if Empty(df) then []
    else
      seq(|df.records|, i requires 0 <= i < |df.records| =>
        Registration(Field(df, i, NameColumn), Field(df, i, MemberColumn),
                     Field(df, i, FeeColumn), Field(df, i, DateColumn)))
  }

  method GetRegistrations(ws: Worksheet) returns (list: seq<Registration>)
    ensures list == Listing(ws.rows)
  {
    var values := ws.GetAllValues();
    list := Listing(values);
  }

  // -------------------------------------------------------------- delete

  /** A row the delete removes: it has a second cell and that cell, trimmed,
      is the target. */
  predicate Matches(row: Row, target: string)
  {
    |row| >= 2 && Trim(row[1]) == target
  }

  /** The rows that do not match, in their original order. */
  function Keep(rows: seq<Row>, target: string): (r: seq<Row>)
    ensures |r| <= |rows|
    ensures forall k :: 0 <= k < |r| ==> !Matches(r[k], target)
  {
    if rows == [] then []
    else (if Matches(rows[0], target) then [] else [rows[0]]) + Keep(rows[1..], target)
  }

  /** The number of matching rows. */
  function MatchCount(rows: seq<Row>, target: string): nat
  {
    if rows == [] then 0
    else (if Matches(rows[0], target) then 1 else 0) + MatchCount(rows[1..], target)
  }

  /** The sheet after `delete_registration_by_member`: the header followed by
      the data rows that do not match. */
  function Deleted(values: seq<Row>, member: string): seq<Row>
  {
    if |values| <= 1 then values else [values[0]] + Keep(values[1..], Trim(member))
  }

  /** Removing the first row of a stretch that otherwise does not match. */
  lemma {:induction false} KeepSkip(v: seq<Row>, e: nat, c: nat, target: string)
    requires e < c <= |v|
    requires Matches(v[e], target)
    requires forall j :: e < j < c ==> !Matches(v[j], target)
    ensures Keep(v[e..], target) == v[e + 1..c] + Keep(v[c..], target)
  {
    assert v[e..][1..] == v[e + 1..];
    KeepNoMatchPrefix(v[e + 1..], c - (e + 1), target);
    assert v[e + 1..][..c - (e + 1)] == v[e + 1..c];
    assert v[e + 1..][c - (e + 1)..] == v[c..];
  }

  /** A prefix without matches is kept whole. */
  lemma {:induction false} KeepNoMatchPrefix(s: seq<Row>, n: nat, target: string)
    requires n <= |s|
    requires forall j :: 0 <= j < n ==> !Matches(s[j], target)
    ensures Keep(s, target) == s[..n] + Keep(s[n..], target)
  {
    if n > 0 {
      KeepNoMatchPrefix(s[1..], n - 1, target);
      assert s[1..][..n - 1] == s[1..n];
      assert s[1..][n - 1..] == s[n..];
      assert s[..n] == [s[0]] + s[1..n];
    }
  }

  /** Strictly increasing row numbers. */
  predicate Increasing(rowsToDelete: seq<int>)
  {
    forall k, l :: 0 <= k < l < |rowsToDelete| ==> rowsToDelete[k] < rowsToDelete[l]
  }

  /** What the collecting loop of the delete gathers: the sheet row numbers
      (1-based, so from 2 below the header) of exactly the matching data
      rows, in increasing order. */
  predicate Collected(values: seq<Row>, target: string, rowsToDelete: seq<int>)
  {
    && (forall k :: 0 <= k < |rowsToDelete| ==>
          2 <= rowsToDelete[k] <= |values| && Matches(values[rowsToDelete[k] - 1], target))
    && Increasing(rowsToDelete)
    && (forall r :: 2 <= r <= |values| && r !in rowsToDelete ==> !Matches(values[r - 1], target))
  }

  /** The 0-based index of the row the `i`-th deletion removes, or the number
      of rows once no deletion is left. Rows from there on are already the
      kept ones. */
  function Cut(rowsToDelete: seq<int>, i: nat, size: nat): int
  {
    if i < |rowsToDelete| then rowsToDelete[i] - 1 else size
  }

  /** No row number strictly between two consecutive deletions is collected. */
  lemma NotCollectedBetween(rowsToDelete: seq<int>, size: nat, i: nat, lo: int, r: int)
    requires Increasing(rowsToDelete)
    requires i <= |rowsToDelete|
    requires (if i == 0 then lo == 0 else lo == rowsToDelete[i - 1] - 1)
    requires lo + 1 < r < Cut(rowsToDelete, i, size) + 1
    ensures r !in rowsToDelete
  {
    forall t | 0 <= t < |rowsToDelete| ensures rowsToDelete[t] != r {
      if t < i - 1 {
        assert rowsToDelete[t] < rowsToDelete[i - 1];
      } else if t > i {
        assert rowsToDelete[i] < rowsToDelete[t];
      }
    }
  }

  /** No data row strictly between the row of the `i`-th deletion (or the
      header, for `i == 0`) and the cut of deletion `i + 1` matches. */
  lemma NoMatchInGap(values: seq<Row>, target: string, rowsToDelete: seq<int>, i: nat, lo: int)
    requires Collected(values, target, rowsToDelete)
    requires i <= |rowsToDelete|
    requires (if i == 0 then lo == 0 else lo == rowsToDelete[i - 1] - 1)
    ensures forall j :: lo < j < Cut(rowsToDelete, i, |values|) && j < |values| ==> !Matches(values[j], target)
  {
    forall j | lo < j < Cut(rowsToDelete, i, |values|) && j < |values| ensures !Matches(values[j], target) {
      NotCollectedBetween(rowsToDelete, |values|, i, lo, j + 1);
    }
  }

  /** Removing the matching row `e` in front of a gap without matches, from a
      sheet whose rows from `c` on are already the kept ones. */
  lemma {:induction false} RemoveBeforeGap(values: seq<Row>, target: string, e: nat, c: nat)
    requires e < c <= |values|
    requires Matches(values[e], target)
    requires forall j :: e < j < c ==> !Matches(values[j], target)
    ensures var rows := values[..c] + Keep(values[c..], target);
            rows[..e] + rows[e + 1..] == values[..e] + Keep(values[e..], target)
  {
    KeepSkip(values, e, c, target);
    var rows := values[..c] + Keep(values[c..], target);
    assert rows[..e] == values[..e];
    assert rows[e + 1..] == values[e + 1..c] + Keep(values[c..], target);
  }

  /** One deletion, of the sheet row `rowsToDelete[i]`, extends the kept
      suffix by the rows up to that one. */
  lemma DeleteStep(values: seq<Row>, target: string, rowsToDelete: seq<int>, i: nat)
    requires Collected(values, target, rowsToDelete)
    requires i < |rowsToDelete|
    ensures var e := rowsToDelete[i] - 1;
            var c := Cut(rowsToDelete, i + 1, |values|);
            var rows := values[..c] + Keep(values[c..], target);
            1 <= e < c <= |values|
            && rows[..e] + rows[e + 1..] == values[..e] + Keep(values[e..], target)
  {
    var e := rowsToDelete[i] - 1;
    var c := Cut(rowsToDelete, i + 1, |values|);
    if i + 1 < |rowsToDelete| {
      assert rowsToDelete[i] < rowsToDelete[i + 1];
    }
    NoMatchInGap(values, target, rowsToDelete, i + 1, e);
    RemoveBeforeGap(values, target, e, c);
  }

  /** Rows from 1 up to `c` that do not match are kept. */
  lemma {:induction false} KeepAfterHeader(values: seq<Row>, target: string, c: nat)
    requires 1 <= c <= |values|
    requires forall j :: 0 < j < c ==> !Matches(values[j], target)
    ensures values[..c] + Keep(values[c..], target) == [values[0]] + Keep(values[1..], target)
  {
    assert forall j :: 0 <= j < c - 1 ==> values[1..][j] == values[j + 1];
    KeepNoMatchPrefix(values[1..], c - 1, target);
    assert values[1..][..c - 1] == values[1..c];
    assert values[1..][c - 1..] == values[c..];
    assert values[..c] == [values[0]] + values[1..c];
  }

  /** Once every collected row is gone, the sheet is the header followed by
      the rows that do not match. */
  lemma DeleteDone(values: seq<Row>, target: string, rowsToDelete: seq<int>)
    requires |values| > 1
    requires Collected(values, target, rowsToDelete)
    ensures var c := Cut(rowsToDelete, 0, |values|);
            1 <= c <= |values|
            && values[..c] + Keep(values[c..], target) == [values[0]] + Keep(values[1..], target)
  {
    NoMatchInGap(values, target, rowsToDelete, 0, 0);
    KeepAfterHeader(values, target, Cut(rowsToDelete, 0, |values|));
  }

  /** The first loop of `delete_registration_by_member`: the sheet row
      numbers of the matching data rows, enumerated from 2 under the header. */
  method CollectRowsToDelete(values: seq<Row>, target: string) returns (rowsToDelete: seq<int>)
    ensures Collected(values, target, rowsToDelete)
  {
    rowsToDelete := [];
    var idx := 2;
    while idx <= |values|
      invariant 2 <= idx <= |values| + 1 || (values == [] && idx == 2)
      invariant forall k :: 0 <= k < |rowsToDelete| ==>
                  2 <= rowsToDelete[k] < idx && Matches(values[rowsToDelete[k] - 1], target)
      invariant Increasing(rowsToDelete)
      invariant forall r :: 2 <= r < idx && r !in rowsToDelete ==> !Matches(values[r - 1], target)
    {
      if Matches(values[idx - 1], target) {
        rowsToDelete := rowsToDelete + [idx];
      }
      idx := idx + 1;
    }
  }

  /** `delete_registration_by_member`: collect the sheet rows whose second
      cell matches, then delete them from the last to the first so that each
      deletion leaves the numbers of the rows still to delete unchanged. */
  method DeleteRegistrationByMember(ws: Worksheet, member: string) returns (removed: nat)
    modifies ws
    ensures ws.rows == Deleted(old(ws.rows), member)
    ensures removed == |old(ws.rows)| - |ws.rows|
  {
    var values := ws.GetAllValues();
    if |values| <= 1 {
      return 0;
    }
    var target := Trim(member);
    var rowsToDelete := CollectRowsToDelete(values, target);
    var i := |rowsToDelete|;
    while i > 0
      invariant 0 <= i <= |rowsToDelete|
      invariant 1 <= Cut(rowsToDelete, i, |values|) <= |values|
      invariant ws.rows == values[..Cut(rowsToDelete, i, |values|)]
                           + Keep(values[Cut(rowsToDelete, i, |values|)..], target)
      invariant |ws.rows| == |values| - (|rowsToDelete| - i)
    {
      i := i - 1;
      DeleteStep(values, target, rowsToDelete, i);
      ws.DeleteRows(rowsToDelete[i]);
    }
    DeleteDone(values, target, rowsToDelete);
    removed := |rowsToDelete|;
  }

  // ------------------------------------------------------------ lemmas

  /** The header constant has four distinct labels, none padded. */
  lemma SheetHeadersFacts()
    ensures IndexOf(SheetHeaders, NameColumn) == 0
    ensures IndexOf(SheetHeaders, MemberColumn) == 1
    ensures IndexOf(SheetHeaders, FeeColumn) == 2
    ensures IndexOf(SheetHeaders, DateColumn) == 3
    ensures multiset(SheetHeaders)[MemberColumn] == 1
    ensures multiset(SheetHeaders)[FeeColumn] == 1
    ensures TrimAll(SheetHeaders) == SheetHeaders
  {
    assert SheetHeaders[1..] == [MemberColumn, FeeColumn, DateColumn];
    assert SheetHeaders[1..][1..] == [FeeColumn, DateColumn];
    assert SheetHeaders[1..][1..][1..] == [DateColumn];
    assert multiset(SheetHeaders) == multiset{NameColumn, MemberColumn, FeeColumn, DateColumn};
    TrimUnpadded(NameColumn);
    TrimUnpadded(MemberColumn);
    TrimUnpadded(FeeColumn);
    TrimUnpadded(DateColumn);
  }

  /** Running `init_storage` twice leaves the sheet as running it once: the
      header it writes already passes its trimmed comparison. The same holds
      of the corrected version. */
  lemma InitIdempotent(values: seq<Row>)
    ensures InitializedAsWritten(InitializedAsWritten(values)) == InitializedAsWritten(values)
    ensures Initialized(Initialized(values)) == Initialized(values)
  {
    SheetHeadersFacts();
  }

  /** `init_storage` never changes the registration count, nor does the
      corrected version. */
  lemma InitKeepsCount(values: seq<Row>)
    ensures Count(InitializedAsWritten(values)) == Count(values)
    ensures Count(Initialized(values)) == Count(values)
  {
  }

  /** `init_storage` keeps the data rows' member numbers distinct, and the
      sheet it leaves is consistent exactly when its first row was not one
      that equals the header only once trimmed. The corrected version always
      makes such a sheet consistent. */
  lemma InitMakesConsistent(values: seq<Row>)
    requires values == [] || UniqueMembers(values[1..])
    ensures UniqueMembers(InitializedAsWritten(values)[1..])
    ensures Consistent(InitializedAsWritten(values)) <==>
            values == [] || values[0] == SheetHeaders || TrimAll(values[0]) != SheetHeaders
    ensures Consistent(Initialized(values))
  {
    SheetHeadersFacts();
  }

  /** The corrected and the written `init_storage` differ only on a first
      row that is the header once its cells are trimmed but not before. */
  lemma InitVersionsAgree(values: seq<Row>)
    requires values == [] || values[0] == SheetHeaders || TrimAll(values[0]) != SheetHeaders
    ensures InitializedAsWritten(values) == Initialized(values)
  {
    SheetHeadersFacts();
  }

  /** The member label with one trailing space trims to the label. */
  lemma PaddedMemberLabel()
    ensures Trim(MemberColumn + " ") == MemberColumn
    ensures MemberColumn + " " != MemberColumn
  {
    var padded := MemberColumn + " ";
    assert TrimStart(padded) == padded;
    assert padded[..|padded| - 1] == MemberColumn;
    assert TrimEnd(MemberColumn) == MemberColumn;
    assert |padded| != |MemberColumn|;
  }

  /** The header row with a trailing space after the member label. */
  function PaddedHeader(): Row
  {
    [NameColumn, MemberColumn + " ", FeeColumn, DateColumn]
  }

  /** The four labels and the padded member label are pairwise different. */
  lemma LabelsDistinct()
    ensures NameColumn != MemberColumn && NameColumn != FeeColumn && NameColumn != DateColumn
    ensures MemberColumn != FeeColumn && MemberColumn != DateColumn && FeeColumn != DateColumn
    ensures MemberColumn + " " !in SheetHeaders
  {
    assert |NameColumn| == 11 && |MemberColumn| == 13 && |FeeColumn| == 13 && |DateColumn| == 16;
    assert MemberColumn[0] == 'n' && FeeColumn[0] == 'f';
    assert |MemberColumn + " "| == 14;
  }

  /** It differs from `SHEET_HEADERS` and trims to it. */
  lemma PaddedHeaderTrims()
    ensures PaddedHeader() != SheetHeaders && TrimAll(PaddedHeader()) == SheetHeaders
  {
    var header := PaddedHeader();
    PaddedMemberLabel();
    SheetHeadersFacts();
    assert header[1] != SheetHeaders[1];
    assert TrimAll(header) == [Trim(header[0]), Trim(header[1]), Trim(header[2]), Trim(header[3])];
  }

  /** It lacks the member label and has the fee label once. */
  lemma PaddedHeaderLabels()
    ensures MemberColumn !in PaddedHeader()
    ensures multiset(PaddedHeader())[FeeColumn] == 1
  {
    LabelsDistinct();
    assert multiset(PaddedHeader()) == multiset{NameColumn, MemberColumn + " ", FeeColumn, DateColumn};
  }

  /** As written, `init_storage` keeps a sheet under that padded header. */
  lemma AsWrittenKeepsPaddedHeader(values: seq<Row>)
    requires values != [] && values[0] == PaddedHeader()
    ensures InitializedAsWritten(values) == values
    ensures Initialized(values) == [SheetHeaders] + values[1..]
  {
    PaddedHeaderTrims();
  }

  /** Under the padded header every insert, whatever the member number, fails
      the member lookup and reports the generic error. */
  lemma PaddedHeaderBlocksInserts(values: seq<Row>, member: string)
    requires |values| > 1 && values[0] == PaddedHeader()
    ensures InsertDecision(InitializedAsWritten(values), member) == Refused(RegistrationFailed)
  {
    AsWrittenKeepsPaddedHeader(values);
    PaddedHeaderLabels();
    var df := RawFrame(values);
    assert df.columns == PaddedHeader() && |df.records| == |values| - 1;
    assert !FeeColumnTwice(values);
    assert multiset(df.columns)[MemberColumn] == 0;
  }

  /** After the corrected `init_storage` an insert never reports the generic
      error: the member column is always found. */
  lemma InitializedAllowsInserts(values: seq<Row>, member: string)
    ensures InsertDecision(Initialized(values), member) != Refused(RegistrationFailed)
  {
    SheetHeadersFacts();
  }

  /** As written, `init_storage` leaves a sheet on which inserts find the
      member column, except under a first row that is the header only once
      trimmed. */
  lemma InitAllowsInsertsUnlessPadded(values: seq<Row>, member: string)
    requires values == [] || values[0] == SheetHeaders || TrimAll(values[0]) != SheetHeaders
    ensures InsertDecision(InitializedAsWritten(values), member) != Refused(RegistrationFailed)
  {
    InitVersionsAgree(values);
    InitializedAllowsInserts(values, member);
  }

  /** Under the header row, the frame reads each data row's cells in the
      header's positions; the fee cell is normalised. */
  lemma FieldsUnderHeaders(values: seq<Row>, i: nat)
    requires |values| >= 1 && values[0] == SheetHeaders
    requires i < |values| - 1
    ensures var df := RawFrame(values);
            var row := values[i + 1];
            Field(df, i, NameColumn) == CellAt(row, 0)
            && Field(df, i, MemberColumn) == CellAt(row, 1)
            && Field(df, i, FeeColumn) == NormalizeFee(CellAt(row, 2))
            && Field(df, i, DateColumn) == CellAt(row, 3)
  {
    SheetHeadersFacts();
    var df := RawFrame(values);
    assert df.records == NormalizeColumn(values[1..], 2);
    assert values[1..][i] == values[i + 1];
    assert 2 >= |values[i + 1]| ==> NormalizeFee("") == "" by {
      assert Trim("") == "";
    }
  }

  /** Under the header row, the frame's member field of record `i` is the
      member cell of data row `i + 1`. */
  lemma MemberFieldsUnderHeaders(values: seq<Row>)
    requires |values| > 1 && values[0] == SheetHeaders
    ensures var df := RawFrame(values);
            !FeeColumnTwice(values) && !Empty(df) && multiset(df.columns)[MemberColumn] == 1
            && forall i :: 0 <= i < |df.records| ==> Field(df, i, MemberColumn) == CellAt(values[i + 1], 1)
  {
    SheetHeadersFacts();
    var df := RawFrame(values);
    forall i | 0 <= i < |df.records|
      ensures Field(df, i, MemberColumn) == CellAt(values[i + 1], 1)
    {
      FieldsUnderHeaders(values, i);
    }
  }

  /** On a sheet that starts with the header row, an insert is refused as a
      duplicate exactly when some data row's member cell, trimmed, equals the
      trimmed member number, and goes ahead otherwise. */
  lemma InsertDecisionUnderHeaders(values: seq<Row>, member: string)
    requires |values| >= 1 && values[0] == SheetHeaders
    ensures InsertDecision(values, member) ==
            if exists j :: 1 <= j < |values| && MemberKey(values[j]) == Trim(member)
            then Refused(DuplicateMember) else Inserted
  {
    if |values| > 1 {
      var df := RawFrame(values);
      var target := Trim(member);
      MemberFieldsUnderHeaders(values);
      if exists i :: 0 <= i < |df.records| && Trim(Field(df, i, MemberColumn)) == target {
        var i :| 0 <= i < |df.records| && Trim(Field(df, i, MemberColumn)) == target;
        assert MemberKey(values[i + 1]) == target;
      }
      if exists j :: 1 <= j < |values| && MemberKey(values[j]) == target {
        var j :| 1 <= j < |values| && MemberKey(values[j]) == target;
        assert Trim(Field(df, j - 1, MemberColumn)) == target;
      }
    }
  }

  /** A successful insert appends exactly one row and leaves every earlier
      row alone; the count rises by one. A refused insert changes nothing. */
  lemma InsertAppendsOneRow(values: seq<Row>, name: string, member: string, fee: bool, timestamp: string)
    requires values != []
    ensures var after := AfterInsert(values, name, member, fee, timestamp);
            if InsertDecision(values, member) == Inserted then
              |after| == |values| + 1 && after[..|values|] == values
              && after[|values|] == [Trim(name), Trim(member), if fee then "1" else "0", timestamp]
              && Count(after) == Count(values) + 1
            else after == values
  {
    var after := AfterInsert(values, name, member, fee, timestamp);
    if InsertDecision(values, member) == Inserted {
      assert after[..|values|] == values;
    }
  }

  /** Inserting keeps a consistent sheet consistent: the new member number
      is not yet on the sheet. */
  lemma InsertKeepsConsistent(values: seq<Row>, name: string, member: string, fee: bool, timestamp: string)
    requires Consistent(values)
    ensures Consistent(AfterInsert(values, name, member, fee, timestamp))
  {
    InsertDecisionUnderHeaders(values, member);
    if InsertDecision(values, member) == Inserted {
      var row := NewRow(name, member, fee, timestamp);
      var after := values + [row];
      TrimIdempotent(member);
      assert MemberKey(row) == Trim(member);
      var data := after[1..];
      assert data == values[1..] + [row];
      forall i, j | 0 <= i < j < |data| ensures MemberKey(data[i]) != MemberKey(data[j]) {
        if j == |data| - 1 {
          assert data[i] == values[i + 1];
        } else {
          assert data[i] == values[1..][i] && data[j] == values[1..][j];
        }
      }
    }
  }

  /** Registering the same member number twice: the second insert, whatever
      its padding, is refused as a duplicate. */
  lemma InsertSameMemberTwice(values: seq<Row>, name: string, member: string, fee: bool, timestamp: string,
                              name2: string, member2: string, fee2: bool, timestamp2: string)
    requires |values| >= 1 && values[0] == SheetHeaders
    requires InsertDecision(values, member) == Inserted
    requires Trim(member2) == Trim(member)
    ensures var after := AfterInsert(values, name, member, fee, timestamp);
            InsertDecision(after, member2) == Refused(DuplicateMember)
            && AfterInsert(after, name2, member2, fee2, timestamp2) == after
  {
    var after := AfterInsert(values, name, member, fee, timestamp);
    TrimIdempotent(member);
    assert after[|values|] == NewRow(name, member, fee, timestamp);
    assert MemberKey(after[|values|]) == Trim(member2);
    InsertDecisionUnderHeaders(after, member2);
  }

  /** Under the header row the listing has one entry per data row, each the
      row's four cells in the header's order, its fee cell normalised. */
  lemma ListingUnderHeaders(values: seq<Row>)
    requires |values| >= 1 && values[0] == SheetHeaders
    ensures |Listing(values)| == |values| - 1
    ensures forall i :: 0 <= i < |values| - 1 ==>
              var row := values[i + 1];
              Listing(values)[i] == Registration(CellAt(row, 0), CellAt(row, 1),
                                                 NormalizeFee(CellAt(row, 2)), CellAt(row, 3))
  {
    forall i | 0 <= i < |values| - 1
      ensures var row := values[i + 1];
              Listing(values)[i] == Registration(CellAt(row, 0), CellAt(row, 1),
                                                 NormalizeFee(CellAt(row, 2)), CellAt(row, 3))
    {
      FieldsUnderHeaders(values, i);
    }
  }

  /** On a header that trims to `SHEET_HEADERS` (the headers `init_storage`
      leaves), a display column whose label the header lacks is listed as
      empty. */
  lemma ListingMissingColumns(values: seq<Row>, i: nat)
    requires |values| > 1 && TrimAll(values[0]) == SheetHeaders && i < |values| - 1
    ensures NameColumn !in values[0] ==> Listing(values)[i].fullName == ""
    ensures MemberColumn !in values[0] ==> Listing(values)[i].memberNumber == ""
    ensures FeeColumn !in values[0] ==> Listing(values)[i].feeAcknowledged == ""
    ensures DateColumn !in values[0] ==> Listing(values)[i].registeredAt == ""
  {
    assert |values[0]| == |TrimAll(values[0])| == 4;
    var df := RawFrame(values);
    assert df.columns == values[0] && !Empty(df);
    assert Listing(values)[i] ==
      Registration(Field(df, i, NameColumn), Field(df, i, MemberColumn),
                   Field(df, i, FeeColumn), Field(df, i, DateColumn));
  }

  /** A fee flag written by an insert lists as itself. */
  lemma FeeFlagRoundTrip(fee: bool)
    ensures NormalizeFee(if fee then "1" else "0") == (if fee then "1" else "0")
  {
    TrimUnpadded("1");
    TrimUnpadded("0");
  }

  /** Appending a row below the header row appends its entry to the
      listing. */
  lemma ListingAppend(values: seq<Row>, row: Row)
    requires |values| >= 1 && values[0] == SheetHeaders
    ensures Listing(values + [row]) == Listing(values)
            + [Registration(CellAt(row, 0), CellAt(row, 1), NormalizeFee(CellAt(row, 2)), CellAt(row, 3))]
  {
    var after := values + [row];
    assert after[0] == SheetHeaders;
    ListingUnderHeaders(values);
    ListingUnderHeaders(after);
    var expected := Listing(values)
      + [Registration(CellAt(row, 0), CellAt(row, 1), NormalizeFee(CellAt(row, 2)), CellAt(row, 3))];
    forall i | 0 <= i < |after| - 1 ensures Listing(after)[i] == expected[i] {
      if i < |values| - 1 {
        assert after[i + 1] == values[i + 1];
      } else {
        assert after[i + 1] == row;
      }
    }
  }

  /** Round trip: a registration that was inserted shows up at the end of the
      listing with its trimmed name and member number, its fee flag and its
      timestamp. */
  lemma ListingAfterInsert(values: seq<Row>, name: string, member: string, fee: bool, timestamp: string)
    requires |values| >= 1 && values[0] == SheetHeaders
    requires InsertDecision(values, member) == Inserted
    ensures Listing(AfterInsert(values, name, member, fee, timestamp))
            == Listing(values) + [Registration(Trim(name), Trim(member), if fee then "1" else "0", timestamp)]
  {
    var row := NewRow(name, member, fee, timestamp);
    ListingAppend(values, row);
    FeeFlagRoundTrip(fee);
  }

  /** Keeping and counting split the rows between them. */
  lemma {:induction false} KeepFacts(rows: seq<Row>, target: string)
    ensures |Keep(rows, target)| + MatchCount(rows, target) == |rows|
    ensures forall r :: r in Keep(rows, target) ==> r in rows
    ensures forall r :: r in rows && !Matches(r, target) ==> r in Keep(rows, target)
    ensures MatchCount(rows, target) == 0 <==> forall j :: 0 <= j < |rows| ==> !Matches(rows[j], target)
  {
    if rows != [] {
      KeepFacts(rows[1..], target);
      var rest := Keep(rows[1..], target);
      assert Keep(rows, target) == (if Matches(rows[0], target) then [] else [rows[0]]) + rest;
      forall r | r in rows && !Matches(r, target) ensures r in Keep(rows, target) {
        if r != rows[0] {
          assert r in rows[1..];
        }
      }
      if MatchCount(rows, target) == 0 {
        forall j | 0 <= j < |rows| ensures !Matches(rows[j], target) {
          if j > 0 {
            assert rows[j] == rows[1..][j - 1];
          }
        }
      }
    }
  }

  /** Without a match, keeping leaves the rows as they are. */
  lemma KeepWithoutMatch(rows: seq<Row>, target: string)
    requires forall j :: 0 <= j < |rows| ==> !Matches(rows[j], target)
    ensures Keep(rows, target) == rows
  {
    KeepNoMatchPrefix(rows, |rows|, target);
  }

  /** The delete keeps the header row and removes as many data rows as match;
      none that is left matches. */
  lemma DeletedShape(values: seq<Row>, member: string)
    requires |values| > 1
    ensures var after := Deleted(values, member);
            |after| >= 1 && after[0] == values[0]
            && |after| == |values| - MatchCount(values[1..], Trim(member))
            && Count(after) == Count(values) - MatchCount(values[1..], Trim(member))
            && forall j :: 1 <= j < |after| ==> !Matches(after[j], Trim(member))
  {
    KeepFacts(values[1..], Trim(member));
  }

  /** Deleting a member number no data row carries changes nothing. */
  lemma DeleteAbsent(values: seq<Row>, member: string)
    requires forall j :: 1 <= j < |values| ==> !Matches(values[j], Trim(member))
    ensures Deleted(values, member) == values
  {
    if |values| > 1 {
      forall j | 0 <= j < |values[1..]| ensures !Matches(values[1..][j], Trim(member)) {
        assert values[1..][j] == values[j + 1];
      }
      KeepWithoutMatch(values[1..], Trim(member));
    }
  }

  /** Distinct member numbers stay distinct in the rows after the first, and
      none of those rows carries the first row's number. */
  lemma UniqueTail(rows: seq<Row>)
    requires rows != [] && UniqueMembers(rows)
    ensures UniqueMembers(rows[1..])
    ensures forall r :: r in rows[1..] ==> MemberKey(r) != MemberKey(rows[0])
  {
    var tail := rows[1..];
    forall i, j | 0 <= i < j < |tail| ensures MemberKey(tail[i]) != MemberKey(tail[j]) {
      assert tail[i] == rows[i + 1] && tail[j] == rows[j + 1];
    }
    forall r | r in tail ensures MemberKey(r) != MemberKey(rows[0]) {
      var k :| 0 <= k < |tail| && tail[k] == r;
      assert rows[k + 1] == r;
    }
  }

  /** A row put before rows with distinct numbers, none its own, keeps the
      numbers distinct. */
  lemma UniqueCons(row: Row, rest: seq<Row>)
    requires UniqueMembers(rest)
    requires forall r :: r in rest ==> MemberKey(r) != MemberKey(row)
    ensures UniqueMembers([row] + rest)
  {
    var all := [row] + rest;
    forall i, j | 0 <= i < j < |all| ensures MemberKey(all[i]) != MemberKey(all[j]) {
      assert all[j] == rest[j - 1];
      if i == 0 {
        assert all[j] in rest;
      } else {
        assert all[i] == rest[i - 1];
      }
    }
  }

  /** A data row with fewer than two cells, or whose second cell does not
      trim to the target, survives the delete. */
  lemma NonMatchingRowsSurvive(values: seq<Row>, member: string, j: nat)
    requires 1 <= j < |values|
    requires |values[j]| < 2 || Trim(values[j][1]) != Trim(member)
    ensures values[j] in Deleted(values, member)
  {
    KeepFacts(values[1..], Trim(member));
    assert values[j] == values[1..][j - 1];
  }

  /** Keeping a sub-sequence of rows keeps member numbers distinct. */
  lemma {:induction false} KeepKeepsUnique(rows: seq<Row>, target: string)
    requires UniqueMembers(rows)
    ensures UniqueMembers(Keep(rows, target))
  {
    if rows != [] {
      UniqueTail(rows);
      KeepKeepsUnique(rows[1..], target);
      KeepFacts(rows[1..], target);
      if !Matches(rows[0], target) {
        UniqueCons(rows[0], Keep(rows[1..], target));
      }
    }
  }

  /** Deleting keeps a consistent sheet consistent. */
  lemma DeleteKeepsConsistent(values: seq<Row>, member: string)
    requires Consistent(values)
    ensures Consistent(Deleted(values, member))
  {
    if |values| > 1 {
      KeepKeepsUnique(values[1..], Trim(member));
    }
  }

  /** With distinct member numbers at most one row matches, and one does when
      some data row carries the number in its second cell. */
  lemma {:induction false} UniqueMatchCount(rows: seq<Row>, target: string)
    requires UniqueMembers(rows)
    ensures MatchCount(rows, target) <= 1
    ensures (exists j :: 0 <= j < |rows| && Matches(rows[j], target)) ==> MatchCount(rows, target) == 1
  {
    if rows != [] {
      var tail := rows[1..];
      assert UniqueMembers(tail) by {
        forall i, j | 0 <= i < j < |tail| ensures MemberKey(tail[i]) != MemberKey(tail[j]) {
          assert tail[i] == rows[i + 1] && tail[j] == rows[j + 1];
        }
      }
      UniqueMatchCount(tail, target);
      KeepFacts(tail, target);
      if Matches(rows[0], target) {
        forall j | 0 <= j < |tail| ensures !Matches(tail[j], target) {
          assert tail[j] == rows[j + 1];
          assert MemberKey(rows[0]) == target;
        }
      } else if exists j :: 0 <= j < |rows| && Matches(rows[j], target) {
        var j :| 0 <= j < |rows| && Matches(rows[j], target);
        assert tail[j - 1] == rows[j];
      }
    }
  }

  /** On a consistent sheet the delete removes at most one registration, and
      exactly one when the member number is on the sheet. */
  lemma DeleteRemovesAtMostOne(values: seq<Row>, member: string)
    requires Consistent(values)
    ensures |values| - |Deleted(values, member)| <= 1
    ensures (exists j :: 1 <= j < |values| && Matches(values[j], Trim(member))) ==>
            Count(Deleted(values, member)) == Count(values) - 1
  {
    if |values| > 1 {
      DeletedShape(values, member);
      UniqueMatchCount(values[1..], Trim(member));
      if exists j :: 1 <= j < |values| && Matches(values[j], Trim(member)) {
        var j :| 1 <= j < |values| && Matches(values[j], Trim(member));
        assert values[1..][j - 1] == values[j];
      }
    }
  }
}
