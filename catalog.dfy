/**
 * The fixed list of rebate tiers offered by the rate drop-down, and the
 * percent label a record stores for the chosen rate.
 */
module RateCatalog {
  import opened Options
  import opened Numerals
  import opened PyFloat

  /** One drop-down entry: the value string it submits and the text it shows. */
  datatype RateTier = RateTier(value: string, text: string)

  /** The eight tiers, in the order the drop-down lists them. */
  const Tiers: seq<RateTier> := [
    RateTier("0.01", "友情支持 (1%)"),
    RateTier("0.05", "基础返点 (5%)"),
    RateTier("0.10", "初级代理 (10%)"),
    RateTier("0.15", "中级代理 (15%)"),
    RateTier("0.20", "高级合伙人 (20%)"),
    RateTier("0.30", "特约渠道 (30%)"),
    RateTier("0.45", "核心战略 (45%)"),
    RateTier("0.60", "至尊合伙 (60%)")
  ]

  /** The whole percent each tier stands for, in catalog order. */
  const Percents: seq<nat> := [1, 5, 10, 15, 20, 30, 45, 60]

  /** The rate column of a record: `int(rate * 100)` followed by a percent sign. */
  function PercentLabel(rate: real): string {
    IntToString(Trunc(rate * 100.0)) + "%"
  }

  predicate EndsWith(s: string, suffix: string) {
    |suffix| <= |s| && s[|s| - |suffix|..] == suffix
  }

  /** A rate of exactly `p` percent is labelled with `p` and a percent sign. */
  lemma {:induction false} PercentLabelOf(p: nat)
    ensures PercentLabel(p as real / 100.0) == NatToString(p) + "%"
  {
    assert (p as real / 100.0) * 100.0 == p as real;
    assert Trunc(p as real) == p;
  }

  lemma {:induction false} TierValue(i: nat)
    requires i < |Tiers|
    ensures |Percents| == |Tiers| && Percents[i] < 100
    ensures Tiers[i].value == "0" + "." + Pad(Percents[i], 2)
  {
    var p := Percents[i];
    assert Pad(p, 2) == Pad(p / 10, 1) + [DigitChar(p % 10)];
    assert Pad(p / 10, 1) == [DigitChar(p / 10)];
  }

  /** `float("0.pp")` with two digits `pp` is `pp` percent. */
  lemma {:induction false} ParsePercent(p: nat)
    requires p < 100
    ensures Parse("0" + "." + Pad(p, 2)) == Some(p as real / 100.0)
  {
    ZeroDigits();
    ParseHundredths("0", Pad(p, 2), p);
  }

  lemma ZeroDigits()
    ensures AllDigits("0") && DigitsValue("0") == 0
  {
    assert "0"[..0] == "";
  }

  /** `readNumber` reads every tier's value string as that tier's percent over one hundred. */
  predicate ReadsCatalog(readNumber: string -> Option<real>) {
    forall k :: 0 <= k < |Tiers| && k < |Percents| ==> readNumber(Tiers[k].value) == Some(Percents[k] as real / 100.0)
  }

  /** `readNumber` reads every `"0.pp"` as `pp` percent. */
  predicate ReadsPercents(readNumber: string -> Option<real>) {
    forall p: nat :: p < 100 ==> readNumber("0" + "." + Pad(p, 2)) == Some(p as real / 100.0)
  }

  lemma ParseReadsPercents()
    ensures ReadsPercents(Parse)
  {
    forall p: nat | p < 100
      ensures Parse("0" + "." + Pad(p, 2)) == Some(p as real / 100.0)
    {
      ParsePercent(p);
    }
  }

  /** A reader of every `"0.pp"` reads the whole catalog, since each tier's value is such a string. */
  lemma CatalogFromPercents(readNumber: string -> Option<real>)
    requires ReadsPercents(readNumber)
    ensures ReadsCatalog(readNumber)
  {
    forall k | 0 <= k < |Tiers| && k < |Percents|
      ensures readNumber(Tiers[k].value) == Some(Percents[k] as real / 100.0)
    {
      TierValue(k);
    }
  }

  /** Python's `float()` reads each tier's value string as that tier's percent over one hundred. */
  lemma ParseReadsCatalog()
    ensures ReadsCatalog(Parse)
  {
    ParseReadsPercents();
    CatalogFromPercents(Parse);
  }

  /** The decimal rendering of each catalog percent. */
  lemma {:induction false} PercentDigits(i: nat)
    requires i < |Percents|
    ensures Percents[i] < 10 ==> NatToString(Percents[i]) == [DigitChar(Percents[i])]
    ensures Percents[i] >= 10 ==> NatToString(Percents[i]) == [DigitChar(Percents[i] / 10), DigitChar(Percents[i] % 10)]
  {
    var p := Percents[i];
    if p >= 10 {
      assert NatToString(p) == NatToString(p / 10) + [DigitChar(p % 10)];
      assert NatToString(p / 10) == [DigitChar(p / 10)];
    }
  }

  lemma EndsWithConcat(prefix: string, suffix: string)
    ensures EndsWith(prefix + suffix, suffix)
  {
    assert (prefix + suffix)[|prefix|..] == suffix;
  }

  /** The label a record stores for a tier is the percent its drop-down text shows in parentheses. */
  lemma {:induction false} TierLabel(i: nat)
    requires i < |Tiers|
    ensures i < |Percents| && EndsWith(Tiers[i].text, " (" + PercentLabel(Percents[i] as real / 100.0) + ")")
  {
    var p := Percents[i];
    PercentLabelOf(p);
    PercentDigits(i);
    var shown := PercentLabel(p as real / 100.0);
    var suffix := " (" + shown + ")";
    var name :=
      if i == 0 then "友情支持" else if i == 1 then "基础返点" else if i == 2 then "初级代理"
      else if i == 3 then "中级代理" else if i == 4 then "高级合伙人" else if i == 5 then "特约渠道"
      else if i == 6 then "核心战略" else "至尊合伙";
    TierText(i, name, shown, suffix);
    EndsWithConcat(name, suffix);
  }

  lemma {:induction false} TierText(i: nat, name: string, shown: string, suffix: string)
    requires i < |Tiers| && i < |Percents|
    requires shown == NatToString(Percents[i]) + "%" && suffix == " (" + shown + ")"
    requires Percents[i] < 10 ==> NatToString(Percents[i]) == [DigitChar(Percents[i])]
    requires Percents[i] >= 10 ==> NatToString(Percents[i]) == [DigitChar(Percents[i] / 10), DigitChar(Percents[i] % 10)]
    requires name ==
      if i == 0 then "友情支持" else if i == 1 then "基础返点" else if i == 2 then "初级代理"
      else if i == 3 then "中级代理" else if i == 4 then "高级合伙人" else if i == 5 then "特约渠道"
      else if i == 6 then "核心战略" else "至尊合伙"
    ensures Tiers[i].text == name + suffix
  {
  }

  /** The tiers are listed from the smallest rate to the largest. */
  lemma {:induction false} TiersAscending(i: nat, j: nat)
    requires i < j < |Tiers|
    ensures j < |Percents|
    ensures Parse(Tiers[i].value).Some? && Parse(Tiers[j].value).Some?
    ensures Parse(Tiers[i].value).value < Parse(Tiers[j].value).value
  {
    ParseReadsCatalog();
    PercentsAscending(i, j);
  }

  lemma {:induction false} PercentsAscending(i: nat, j: nat)
    requires i < j < |Percents|
    ensures Percents[i] < Percents[j]
    decreases j - i
  {
    assert forall k :: 0 <= k < |Percents| - 1 ==> Percents[k] < Percents[k + 1];
    if i + 1 < j {
      PercentsAscending(i + 1, j);
    }
  }
}
