/**
 * The calculate-and-record engine behind the three buttons: validation of the
 * two inputs, the payout, the newest-first history kept twice (the on-screen
 * table and the list that is exported), clearing, and the export guard.
 */
module Ledger {
  import opened Options
  import opened Numerals
  import opened Text
  import opened PyFloat
  import opened RateCatalog
  import opened Clock

  /** One entry of the export list: record time, performance amount, rate label, payout. */
  datatype Record = Record(time: string, amount: real, rateLabel: string, payout: real)

  /** One row of the history table: time of day, amount, rate label, payout (cell number formats not modelled). */
  datatype Row = Row(clock: string, amount: real, rateLabel: string, payout: real)

  /** The exported sheet's header: the record keys in the order the record is built. */
  const Columns: seq<string> := ["记录时间", "业绩金额", "返利点位", "应付返利"]

  /** The table handed to the spreadsheet writer: one row per record, no index column. */
  datatype Sheet = Sheet(columns: seq<string>, rows: seq<Record>)

  datatype ExportOutcome =
    | NothingToExport
    | Saved(fileName: string, sheet: Sheet)
    | Failed(reason: string)

  /** The outcome of one press of the calculate button. */
  datatype Attempt =
    | AmountMissing
    | RateMissing
    | BadNumber
    | Computed(record: Record)

  const AmountRequired: string := "请输入金额"
  const RateRequired: string := "请选择点位"
  const NumberFormatError: string := "数字格式错误"
  const EmptyLedgerMessage: string := "表格是空的，没东西可导出！"
  const InitialSnackMessage: string := "导出成功！文件已保存在当前目录"
  const SavedMessagePrefix: string := "成功导出: "
  const FailedMessagePrefix: string := "导出失败: "

  /**
   * The calculate step as a value: an empty amount first, then a missing
   * rate, then `readNumber` (Python's `float()`) of the amount and of the
   * rate, either failing being a format error, and otherwise the record of
   * amount times rate.
   */
  function Evaluate(readNumber: string -> Option<real>, amountText: string, rateChoice: string, now: DateTime): Attempt
    requires Clock.Valid(now)
  {
    if amountText == "" then AmountMissing
    else if rateChoice == "" then RateMissing
    else
      var money := readNumber(amountText);
      var rate := readNumber(rateChoice);
      if money.None? || rate.None? then BadNumber
      else Computed(Record(RecordTime(now), money.value, PercentLabel(rate.value), Payout(money.value, rate.value)))
  }

  /** The amount owed: performance amount times rate, exactly (the two-decimal display is not modelled). */
  function Payout(amount: real, rate: real): real {
    amount * rate
  }

  /** A table row shows the record it was built with: the text after the space of its time, and the same numbers. */
  predicate Describes(row: Row, rec: Record) {
    var fields := Split(rec.time, ' ');
    |fields| >= 2 && row == Row(fields[1], rec.amount, rec.rateLabel, rec.payout)
  }

  /** The table and the list have the same length and agree position by position. */
  predicate RowsDescribe(rows: seq<Row>, records: seq<Record>) {
    if rows == [] || records == [] then rows == [] && records == []
    else Describes(rows[0], records[0]) && RowsDescribe(rows[1..], records[1..])
  }

  lemma {:induction false} RowsDescribeAt(rows: seq<Row>, records: seq<Record>, i: nat)
    requires RowsDescribe(rows, records)
    ensures |rows| == |records|
    ensures i < |rows| ==> Describes(rows[i], records[i])
  {
    if rows != [] && records != [] {
      RowsDescribeAt(rows[1..], records[1..], if i > 0 then i - 1 else 0);
    }
  }

  /** Newest first: the last element of `s` comes first. */
  function Reversed<T>(s: seq<T>): (r: seq<T>)
    ensures |r| == |s|
  {
    if s == [] then [] else [s[|s| - 1]] + Reversed(s[..|s| - 1])
  }

  /** Position `i` of the reversed sequence holds the element `i` places from the end. */
  lemma {:induction false} ReversedAt<T>(s: seq<T>, i: nat)
    requires i < |s|
    ensures Reversed(s)[i] == s[|s| - 1 - i]
  {
    if i > 0 {
      ReversedAt(s[..|s| - 1], i - 1);
    }
  }

  /** A rate text that reads as `p`/100 yields the label "p%" and `p`% of the amount. */
  lemma {:induction false} EvaluatePercent(readNumber: string -> Option<real>, amountText: string, money: real, rateText: string, p: nat, now: DateTime)
    requires Clock.Valid(now) && amountText != "" && rateText != ""
    requires readNumber(amountText) == Some(money) && readNumber(rateText) == Some(p as real / 100.0)
    ensures Evaluate(readNumber, amountText, rateText, now)
              == Computed(Record(RecordTime(now), money, NatToString(p) + "%", Payout(money, p as real / 100.0)))
  {
    PercentLabelOf(p);
    EvaluateLabelled(readNumber, amountText, money, rateText, p as real / 100.0, NatToString(p) + "%", now);
  }

  lemma EvaluateLabelled(readNumber: string -> Option<real>, amountText: string, money: real, rateText: string, rate: real, shown: string, now: DateTime)
    requires Clock.Valid(now) && amountText != "" && rateText != ""
    requires readNumber(amountText) == Some(money) && readNumber(rateText) == Some(rate) && PercentLabel(rate) == shown
    ensures Evaluate(readNumber, amountText, rateText, now) == Computed(Record(RecordTime(now), money, shown, Payout(money, rate)))
  {
  }

  /**
   * With a reader that reads the catalog as `float()` does, a successful
   * calculation at catalog entry `i`, which stands for `p`%, records `p`% of
   * the amount under the label "p%".
   */
  lemma {:induction false} EvaluateCatalogRate(readNumber: string -> Option<real>, amountText: string, money: real, i: nat, now: DateTime)
    requires Clock.Valid(now) && amountText != "" && readNumber(amountText) == Some(money)
    requires ReadsCatalog(readNumber) && i < |Tiers|
    ensures |Percents| == |Tiers|
    ensures var p := Percents[i];
            Evaluate(readNumber, amountText, Tiers[i].value, now)
              == Computed(Record(RecordTime(now), money, NatToString(p) + "%", Payout(money, p as real / 100.0)))
  {
    TierValue(i);
    EvaluatePercent(readNumber, amountText, money, Tiers[i].value, Percents[i], now);
  }

  /** The guards in order: letters are a format error, an empty amount wins over an empty rate. */
  lemma {:induction false} RejectedInputs(now: DateTime)
    requires Clock.Valid(now)
    ensures Evaluate(Parse, "abc", "0.10", now) == BadNumber
    ensures Evaluate(Parse, "", "", now) == AmountMissing
    ensures Evaluate(Parse, "1000", "", now) == RateMissing
  {
    AmountWithoutDigit("abc", "0.10", now);
  }

  /** With both fields filled, an amount without a single digit in it is a format error, whatever the rate. */
  lemma {:induction false} AmountWithoutDigit(amountText: string, rateChoice: string, now: DateTime)
    requires Clock.Valid(now) && amountText != "" && rateChoice != ""
    requires forall i :: 0 <= i < |amountText| ==> !IsDigit(amountText[i])
    ensures Evaluate(Parse, amountText, rateChoice, now) == BadNumber
  {
    if Parse(amountText).Some? {
      ParseNeedsDigit(amountText);
    }
  }

  /**
   * The engine's state: the two fields' error texts, the result line, the
   * history table's rows, the export list, and the notification bar.
   */
  class RebateEngine {
    /** Python's `float()`, which the engine applies to both inputs. */
    const readNumber: string -> Option<real>
    var amountError: Option<string>
    var rateError: Option<string>
    /** The payout the result line shows; `None` while it still reads "等待计算...". */
    var shownPayout: Option<real>
    var rows: seq<Row>
    var data: seq<Record>
    var snackText: string
    var snackOpen: bool
    /** The records of the successful calculations since the last clear, oldest first. */
    ghost var history: seq<Record>

    /** Table and list have equal length, agree row by row, and list the calculations newest first. */
    ghost predicate Valid()
      reads this`rows, this`data, this`history
    {
      && RowsDescribe(rows, data)
      && |history| == |data|
      && (forall i :: 0 <= i < |data| ==> data[i] == history[|history| - 1 - i])
    }

    constructor ()
      ensures readNumber == Parse && ReadsCatalog(readNumber)
      ensures Valid()
      ensures amountError == None && rateError == None && shownPayout == None
      ensures rows == [] && data == [] && history == []
      ensures snackText == InitialSnackMessage && !snackOpen
    {
      readNumber := Parse;
      amountError, rateError, shownPayout := None, None, None;
      rows, data := [], [];
      snackText, snackOpen := InitialSnackMessage, false;
      history := [];
      ParseReadsCatalog();
    }

    /** The calculate button: validate, compute, and prepend the record to the table and the list. */
    method Calculate(amountText: string, rateChoice: string, now: DateTime)
      requires Valid() && Clock.Valid(now)
      modifies this
      ensures Valid()
      ensures snackText == old(snackText) && snackOpen == old(snackOpen)
      ensures match Evaluate(readNumber, amountText, rateChoice, now)
        case AmountMissing =>
          && amountError == Some(AmountRequired) && rateError == old(rateError)
          && shownPayout == old(shownPayout) && rows == old(rows) && data == old(data) && history == old(history)
        case RateMissing =>
          && rateError == Some(RateRequired) && amountError == old(amountError)
          && shownPayout == old(shownPayout) && rows == old(rows) && data == old(data) && history == old(history)
        case BadNumber =>
          && amountError == Some(NumberFormatError) && rateError == None
          && shownPayout == old(shownPayout) && rows == old(rows) && data == old(data) && history == old(history)
        case Computed(rec) =>
          && amountError == None && rateError == None && shownPayout == Some(rec.payout)
          && data == [rec] + old(data) && |rows| == |old(rows)| + 1 && rows[1..] == old(rows) && Describes(rows[0], rec)
          && history == old(history) + [rec]
    {
      if amountText == "" {
        amountError := Some(AmountRequired);
        return;
      }
      if rateChoice == "" {
        rateError := Some(RateRequired);
        return;
      }
      Convert(amountText, rateChoice, now);
    }

    /** The calculation once both inputs are present: read both numbers, then record or report a format error. */
    method Convert(amountText: string, rateChoice: string, now: DateTime)
      requires Valid() && Clock.Valid(now) && amountText != "" && rateChoice != ""
      modifies this`amountError, this`rateError, this`shownPayout, this`rows, this`data, this`history
      ensures Valid()
      ensures match Evaluate(readNumber, amountText, rateChoice, now)
        case Computed(rec) =>
          && amountError == None && rateError == None && shownPayout == Some(rec.payout)
          && data == [rec] + old(data) && |rows| == |old(rows)| + 1 && rows[1..] == old(rows) && Describes(rows[0], rec)
          && history == old(history) + [rec]
        case _ =>
          && amountError == Some(NumberFormatError) && rateError == None
          && shownPayout == old(shownPayout) && rows == old(rows) && data == old(data) && history == old(history)
    {
      amountError := None;
      rateError := None;
      var money := readNumber(amountText);
      var rate := readNumber(rateChoice);
      if money.None? || rate.None? {
        amountError := Some(NumberFormatError);
        return;
      }
      Accept(money.value, rate.value, now);
    }

    /** A calculation whose inputs both read as numbers: show the payout and prepend its record. */
    method Accept(money: real, rate: real, now: DateTime)
      requires Valid() && Clock.Valid(now)
      modifies this`shownPayout, this`rows, this`data, this`history
      ensures Valid()
      ensures var rec := Record(RecordTime(now), money, PercentLabel(rate), Payout(money, rate));
        && shownPayout == Some(rec.payout)
        && data == [rec] + old(data) && |rows| == |old(rows)| + 1 && rows[1..] == old(rows) && Describes(rows[0], rec)
        && history == old(history) + [rec]
    {
      var result := Payout(money, rate);
      var nowTime := RecordTime(now);
      shownPayout := Some(result);
      RecordTimeFields(now);
      var newRow := Row(Split(nowTime, ' ')[1], money, PercentLabel(rate), result);
      var rec := Record(nowTime, money, PercentLabel(rate), result);
      Prepend(newRow, rec);
    }

    /** Inserts a new row at the top of the table and its record at the front of the list. */
    method Prepend(row: Row, rec: Record)
      requires Valid() && Describes(row, rec)
      modifies this`rows, this`data, this`history
      ensures Valid()
      ensures rows == [row] + old(rows) && data == [rec] + old(data) && history == old(history) + [rec]
    {
      RowsDescribeAt(rows, data, 0);
      assert ([row] + rows)[1..] == rows;
      assert ([rec] + data)[1..] == data;
      rows := [row] + rows;
      data := [rec] + data;
      history := history + [rec];
    }

    /** The clear button: both the table and the list become empty, whatever they held. */
    method Clear()
      requires Valid()
      modifies this`rows, this`data, this`history
      ensures Valid()
      ensures rows == [] && data == [] && history == []
    {
      rows := [];
      data := [];
      history := [];
    }

    /**
     * The export button. An empty list is refused with a notice; otherwise the
     * list goes to the spreadsheet writer in its own order under a time-stamped
     * name, `writeFailure` standing for the writer's error, if any. The list and
     * the table are never touched.
     */
    method Export(now: DateTime, writeFailure: Option<string>) returns (outcome: ExportOutcome)
      requires Valid() && Clock.Valid(now)
      modifies this`snackText, this`snackOpen
      ensures Valid() && snackOpen
      ensures data == [] ==> outcome == NothingToExport && snackText == EmptyLedgerMessage
      ensures data != [] && writeFailure.None? ==>
        && outcome == Saved(ExportFileName(now), Sheet(Columns, data))
        && snackText == SavedMessagePrefix + ExportFileName(now)
      ensures data != [] && writeFailure.Some? ==>
        && outcome == Failed(writeFailure.value)
        && snackText == FailedMessagePrefix + writeFailure.value
    {
      if data == [] {
        snackText := EmptyLedgerMessage;
        snackOpen := true;
        return NothingToExport;
      }
      var sheet := Sheet(Columns, data);
      var fileName := ExportFileName(now);
      if writeFailure.Some? {
        snackText := FailedMessagePrefix + writeFailure.value;
        snackOpen := true;
        return Failed(writeFailure.value);
      }
      snackText := SavedMessagePrefix + fileName;
      snackOpen := true;
      return Saved(fileName, sheet);
    }

    /** Row `i` of the table shows record `i` of the list. */
    lemma TableMatchesList(i: nat)
      requires Valid() && i < |data|
      ensures |rows| == |data| && Describes(rows[i], data[i])
    {
      RowsDescribeAt(rows, data, i);
    }

    /** The export list is the history of calculations since the last clear, newest first. */
    lemma ListIsNewestFirst()
      requires Valid()
      ensures data == Reversed(history)
    {
      forall i | 0 <= i < |data|
        ensures data[i] == Reversed(history)[i]
      {
        ReversedAt(history, i);
      }
    }
  }
}
