/**
  The account lookup: from the optional account-name and currency criteria,
  keep those that are non-empty and whose column the sheet has, then return
  the first row, in sheet order, that equals every kept criterion.
 */
module AccountLookup {
  import opened AccountTable

  /** One active criterion: the named column must hold exactly this value. */
  datatype Constraint = Constraint(column: string, value: string)

  /** What the lookup reports. The program returns None in every case but
      Found and shows a warning instead; each warning is a variant here. */
  datatype Outcome = NoTable | NoCriteria | NotFound | Found(record: Record) {

    /** The value the lookup hands back to its caller: the record, or nothing. */
    function Details(): (r: Option<Record>)
      ensures r.Some? <==> Found?
      ensures Found? ==> r.value == record
    {
      if Found? then Some(record) else None
    }
  }

  /** Whether a criterion argument counts as given: present and non-empty. */
  predicate Given(arg: Option<string>) {
    arg.Some? && arg.value != ""
  }

  /** The constraint one argument contributes: none when it is not given or
      when the sheet has no such column. */
  function Criterion(t: Frame, column: string, arg: Option<string>): seq<Constraint> {
    if Given(arg) && column in t.columns then [Constraint(column, arg.value)] else []
  }

  /** The active criteria, account name first. */
  function ActiveCriteria(t: Frame, accountName: Option<string>, currency: Option<string>): (r: seq<Constraint>)
    ensures |r| <= 2
    ensures |r| == 2 ==> r[0].column == AccountNameColumn && r[1].column == CurrencyColumn
    ensures forall k :: 0 <= k < |r| ==> r[k].column in t.columns && r[k].value != ""
    ensures forall c :: c in r <==>
      || (Given(accountName) && AccountNameColumn in t.columns && c == Constraint(AccountNameColumn, accountName.value))
      || (Given(currency) && CurrencyColumn in t.columns && c == Constraint(CurrencyColumn, currency.value))
  {
    Criterion(t, AccountNameColumn, accountName) + Criterion(t, CurrencyColumn, currency)
  }

  /** A row meets every constraint. */
  predicate Satisfies(row: Row, active: seq<Constraint>) {
    forall k :: 0 <= k < |active| ==> active[k].column in row && row[active[k].column] == active[k].value
  }

  /** The rows meeting every constraint, in their original order: the
      sub-table the query returns. */
  function Filter(rows: seq<Row>, active: seq<Constraint>): (r: seq<Row>)
    ensures |r| <= |rows|
    ensures forall row :: row in r <==> row in rows && Satisfies(row, active)
  {
    if |rows| == 0 then []
    else if Satisfies(rows[0], active) then [rows[0]] + Filter(rows[1..], active)
    else Filter(rows[1..], active)
  }

  /** Reference definition of the row to return: the lowest index whose row
      meets every constraint, if any. */
  function FirstMatch(rows: seq<Row>, active: seq<Constraint>): (r: Option<nat>)
    ensures r.Some? ==> r.value < |rows| && Satisfies(rows[r.value], active)
    ensures r.Some? ==> forall j :: 0 <= j < r.value ==> !Satisfies(rows[j], active)
    ensures r.None? ==> forall j :: 0 <= j < |rows| ==> !Satisfies(rows[j], active)
  {
    if |rows| == 0 then None
    else if Satisfies(rows[0], active) then Some(0)
    else match FirstMatch(rows[1..], active)
      case None => None
      case Some(k) => Some(k + 1)
  }

  /** The query's first row is the first matching row of the table. */
  lemma {:induction false} FilterHeadIsFirstMatch(rows: seq<Row>, active: seq<Constraint>)
    ensures |Filter(rows, active)| > 0 <==> FirstMatch(rows, active).Some?
    ensures FirstMatch(rows, active).Some? ==> Filter(rows, active)[0] == rows[FirstMatch(rows, active).value]
  {
    if |rows| > 0 && !Satisfies(rows[0], active) {
      FilterHeadIsFirstMatch(rows[1..], active);
      var m := FirstMatch(rows[1..], active);
      if m.Some? {
        assert rows[1..][m.value] == rows[m.value + 1];
      }
    }
  }

  /** The lookup. An absent table is reported before the criteria are looked
      at; with no active criterion the rows are never consulted; otherwise the
      first row of the filtered table is returned as a record in column order. */
  function GetAccountDetails(table: Option<Frame>, accountName: Option<string>, currency: Option<string>): (r: Outcome)
    ensures r.NoTable? <==> table.None?
    ensures r.NoCriteria? <==> table.Some? && ActiveCriteria(table.value, accountName, currency) == []
    ensures r.NotFound? <==>
      && table.Some?
      && ActiveCriteria(table.value, accountName, currency) != []
      && forall i :: 0 <= i < |table.value.rows| ==> !Satisfies(table.value.rows[i], ActiveCriteria(table.value, accountName, currency))
    ensures r.Found? ==> table.Some? && |r.record| == |table.value.columns|
    ensures r.Found? ==> forall k :: 0 <= k < |r.record| ==> r.record[k].key == table.value.columns[k]
    ensures r.Found? ==> forall c :: c in ActiveCriteria(table.value, accountName, currency) ==> Field(c.column, c.value) in r.record
  {
    match table
    case None => NoTable
    case Some(t) =>
      var active := ActiveCriteria(t, accountName, currency);
      if active == [] then NoCriteria
      else
        var matching := Filter(t.rows, active);
        if |matching| > 0 then
          assert matching[0] in t.rows;
          Found(ToRecord(t.columns, matching[0]))
        else NotFound
  }

  /** First match: a found record is that of the lowest-indexed row meeting
      every active criterion, no earlier row meets them, and read back as a
      dictionary the record is that row. */
  lemma LookupReturnsFirstMatch(t: Frame, accountName: Option<string>, currency: Option<string>)
    ensures var r := GetAccountDetails(Some(t), accountName, currency);
      var active := ActiveCriteria(t, accountName, currency);
      r.Found? ==> (exists i :: 0 <= i < |t.rows|
                      && Satisfies(t.rows[i], active)
                      && (forall j :: 0 <= j < i ==> !Satisfies(t.rows[j], active))
                      && r.record == ToRecord(t.columns, t.rows[i])
                      && AsMap(r.record) == t.rows[i])
  {
    var active := ActiveCriteria(t, accountName, currency);
    FilterHeadIsFirstMatch(t.rows, active);
    var m := FirstMatch(t.rows, active);
    if GetAccountDetails(Some(t), accountName, currency).Found? {
      assert m.Some?;
      assert Satisfies(t.rows[m.value], active);
      ToRecordRoundTrip(t.columns, t.rows[m.value]);
    }
  }

  /** The value the lookup hands back: a record exactly when a table is
      present, some criterion is active and some row meets every active
      criterion; that record is the one of the first such row. */
  lemma ReturnedDetails(table: Option<Frame>, accountName: Option<string>, currency: Option<string>)
    ensures var d := GetAccountDetails(table, accountName, currency).Details();
      d.Some? <==>
        && table.Some?
        && ActiveCriteria(table.value, accountName, currency) != []
        && exists i :: 0 <= i < |table.value.rows| && Satisfies(table.value.rows[i], ActiveCriteria(table.value, accountName, currency))
    ensures var d := GetAccountDetails(table, accountName, currency).Details();
      d.Some? ==> (exists i :: 0 <= i < |table.value.rows|
                     && Satisfies(table.value.rows[i], ActiveCriteria(table.value, accountName, currency))
                     && (forall j :: 0 <= j < i ==> !Satisfies(table.value.rows[j], ActiveCriteria(table.value, accountName, currency)))
                     && d.value == ToRecord(table.value.columns, table.value.rows[i]))
  {
    if table.Some? {
      LookupReturnsFirstMatch(table.value, accountName, currency);
    }
  }

  /** A criterion whose column the sheet lacks is dropped, not reported:
      the lookup behaves as if that argument had been left out. */
  lemma MissingColumnIsIgnored(t: Frame, accountName: Option<string>, currency: Option<string>)
    ensures AccountNameColumn !in t.columns ==>
      GetAccountDetails(Some(t), accountName, currency) == GetAccountDetails(Some(t), None, currency)
    ensures CurrencyColumn !in t.columns ==>
      GetAccountDetails(Some(t), accountName, currency) == GetAccountDetails(Some(t), accountName, None)
  {
  }

  /** A sheet without rows never yields a record: given any active criterion
      the answer is NotFound. */
  lemma EmptySheetIsNotFound(t: Frame, accountName: Option<string>, currency: Option<string>)
    requires t.rows == []
    ensures GetAccountDetails(Some(t), accountName, currency) != NoTable
    ensures !GetAccountDetails(Some(t), accountName, currency).Found?
    ensures ActiveCriteria(t, accountName, currency) != [] ==>
      GetAccountDetails(Some(t), accountName, currency) == NotFound
  {
  }

  /** An example sheet: two accounts of one name in different currencies. */
  const AcmeColumns: seq<string> := [AccountNameColumn, CurrencyColumn, "ACCOUNT NUMBER"]
  const AcmeUsd: Row := map[AccountNameColumn := "Acme", CurrencyColumn := "USD", "ACCOUNT NUMBER" := "123"]
  const AcmeEur: Row := map[AccountNameColumn := "Acme", CurrencyColumn := "EUR", "ACCOUNT NUMBER" := "456"]

  /** Name and currency together pick the second row. */
  lemma AcmeByNameAndCurrency(t: Frame)
    requires t == Table(AcmeColumns, [AcmeUsd, AcmeEur])
    ensures GetAccountDetails(Some(t), Some("Acme"), Some("EUR")) == Found(ToRecord(AcmeColumns, AcmeEur))
  {
    var both := ActiveCriteria(t, Some("Acme"), Some("EUR"));
    assert both == [Constraint(AccountNameColumn, "Acme"), Constraint(CurrencyColumn, "EUR")];
    assert !Satisfies(AcmeUsd, both) by {
      assert AcmeUsd[both[1].column] == "USD";
      assert "USD"[0] != "EUR"[0];
    }
    assert Satisfies(AcmeEur, both);
    assert Filter([AcmeUsd, AcmeEur], both) == [AcmeEur] by {
      assert [AcmeUsd, AcmeEur][1..] == [AcmeEur];
      assert [AcmeEur][1..] == [];
    }
  }

  /** The name alone matches both rows; the first one wins. */
  lemma AcmeByNameOnly(t: Frame)
    requires t == Table(AcmeColumns, [AcmeUsd, AcmeEur])
    ensures GetAccountDetails(Some(t), Some("Acme"), Some("")) == Found(ToRecord(AcmeColumns, AcmeUsd))
  {
  }

  /** An account name no row holds is not found. */
  lemma AcmeUnknownName(t: Frame)
    requires t == Table(AcmeColumns, [AcmeUsd, AcmeEur])
    ensures GetAccountDetails(Some(t), Some("Globex"), None) == NotFound
  {
  }
}
