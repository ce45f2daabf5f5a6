/**
  The retrieval flow of the page: the user picks one choice per filter
  column, the lookup runs on those choices, and its answer is rendered as
  text. Widgets and display calls are left out; what remains is how the
  three operations fit together.
 */
module Retrieve {
  import opened AccountTable
  import opened AccountLookup
  import opened AccountFormat
  import opened FilterOptions

  /** The text shown after pressing the retrieve button. */
  function Retrieve(t: Frame, accountName: string, currency: string): (r: string)
    ensures var o := GetAccountDetails(Some(t), Some(accountName), Some(currency));
      r == NoDetails <==> !(o.Found? && o.record != [])
    ensures var o := GetAccountDetails(Some(t), Some(accountName), Some(currency));
      o.Found? && o.record != [] ==> |r| > |Header| && r[..|Header| + 1] == Header + "\n" && r[|r| - 1] == '\n'
  {
    var details := GetAccountDetails(Some(t), Some(accountName), Some(currency)).Details();
    FallbackOnlyWithoutRecord(details);
    FormatAccountDetails(details)
  }

  /** Picking an account name and leaving the currency at its empty choice:
      the empty choice or the placeholder asks for criteria, any other choice
      finds a record carrying that account name. */
  lemma AccountNameChoiceOutcome(t: Frame, v: string)
    requires v in Options(t, AccountNameColumn)
    ensures var o := GetAccountDetails(Some(t), Some(v), Some(""));
      && (v == "" || AccountNameColumn !in t.columns ==> o == NoCriteria)
      && (v != "" && AccountNameColumn in t.columns ==> o.Found? && Field(AccountNameColumn, v) in o.record)
  {
  }

  /** Picking a currency and leaving the account name at its empty choice,
      with the same three answers. */
  lemma CurrencyChoiceOutcome(t: Frame, v: string)
    requires v in Options(t, CurrencyColumn)
    ensures var o := GetAccountDetails(Some(t), Some(""), Some(v));
      && (v == "" || CurrencyColumn !in t.columns ==> o == NoCriteria)
      && (v != "" && CurrencyColumn in t.columns ==> o.Found? && Field(CurrencyColumn, v) in o.record)
  {
  }

  /** The shown text: the fallback sentence unless a record was found; for a
      found record of a sheet whose names and cells are single-line, the
      header and then one line per column, in column order, each column once. */
  lemma RetrievedText(t: Frame, accountName: string, currency: string)
    ensures var o := GetAccountDetails(Some(t), Some(accountName), Some(currency));
      !o.Found? ==> Retrieve(t, accountName, currency) == NoDetails
    ensures var o := GetAccountDetails(Some(t), Some(accountName), Some(currency));
      o.Found? && t.columns != [] && SingleLineFields(o.record) ==>
        var lines := Lines(Retrieve(t, accountName, currency));
        && |lines| == 1 + |t.columns|
        && lines[0] == Header
        && forall k :: 0 <= k < |t.columns| ==> lines[k + 1] == FieldLine(Field(t.columns[k], o.record[k].value))
  {
    var o := GetAccountDetails(Some(t), Some(accountName), Some(currency));
    if o.Found? && t.columns != [] && SingleLineFields(o.record) {
      FormattedLines(o.record);
    }
  }
}
