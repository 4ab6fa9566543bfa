/**
  The GROUP BY adjustment wrapped around ERPNext's
  `trends.based_wise_columns_query`.  The original function returns a dict
  of query fragments; the wrapper reads `based_on_select` and
  `based_on_group_by` (both defaulting to the empty string), appends the
  columns PostgreSQL wants grouped, and writes `based_on_group_by` back.

  The repository carries two copies of the wrapper, in
  `patches/v1/fix_erpnext_trends.py` and `patches/erpnext_trends_fix.py`,
  written the same way: one conditional on the dimension followed by the
  currency test.  `AdjustGroupBy` states that conditional directly.
  `AdjustGroupByLegacy` is this model's own second formulation, a sequence
  of named steps (dimension columns, then currency), and `CopiesAgree`
  shows that the two compute the same thing.
 */
module Trends {
  import opened Text

  /** The fragments dict the original function returns, reduced to its
      string entries. */
  type Details = map<string, string>

  const SelectKey := "based_on_select"
  const GroupByKey := "based_on_group_by"

  /** `details.get(key, "")`. */
  function Get(d: Details, key: string): string {
    if key in d then d[key] else ""
  }

  const ItemCode := "t2.item_code"
  const ItemNameTail := ", t2.item_name"
  const CustomerName := "customer_name"
  const PartyName := "party_name"
  const CustomerTail := ", t1." + CustomerName + ", t1.territory"
  const SupplierName := "supplier_name"
  const SupplierTail := ", t1." + SupplierName
  const ProjectName := "project_name"
  const ProjectTail := ", t2." + ProjectName
  const Currency := "default_currency"
  const CurrencyRef := "t4." + Currency
  const CurrencyTail := ", " + CurrencyRef

  /** Python's `name in s`. */
  predicate Mentions(s: string, name: string) {
    ContainsFrom(s, name, 0)
  }

  /** The new `based_on_group_by`, as `fix_erpnext_trends.py` computes it:
      first the dimension's own columns, then the currency column. */
  function AdjustGroupBy(basedOn: string, trans: string, select: string, groupBy: string): string {
    var g :=
      if basedOn == "Item" then
        if groupBy == ItemCode then ItemCode + ItemNameTail else groupBy
      else if basedOn == "Customer" then
        if trans == "Quotation" then
          if Mentions(select, PartyName) && !Mentions(groupBy, PartyName) then groupBy + CustomerTail else groupBy
        else
          if Mentions(select, CustomerName) && !Mentions(groupBy, CustomerName) then groupBy + CustomerTail else groupBy
      else if basedOn == "Supplier" then
        if Mentions(select, SupplierName) && !Mentions(groupBy, SupplierName) then groupBy + SupplierTail else groupBy
      else if basedOn == "Project" then
        if Mentions(select, ProjectName) && !Mentions(groupBy, ProjectName) then groupBy + ProjectTail else groupBy
      else groupBy;
    if Mentions(select, Currency) && !Mentions(g, Currency) && !Mentions(g, CurrencyRef) then g + CurrencyTail
    else g
  }

  // ---------------------------------------------------------------------
  // The copy in erpnext_trends_fix.py, step by step
  // ---------------------------------------------------------------------

  /** A group_by that is exactly `t2.item_code` gains `t2.item_name`. */
  function ItemStep(g: string): string {
    if g == ItemCode then ItemCode + ItemNameTail else g
  }

  /** The shape shared by the Customer, Supplier and Project steps: when
      the select mentions `name` and the group_by does not, `tail` is
      appended. */
  function AppendIfMissing(select: string, g: string, name: string, tail: string): string {
    if Mentions(select, name) && !Mentions(g, name) then g + tail else g
  }

  /** The per-dimension part of the adjustment.  For a Quotation the guard
      looks for `party_name` while the columns appended are
      `customer_name` and `territory`. */
  function DimensionStep(basedOn: string, trans: string, select: string, g: string): (r: string)
    ensures g <= r
    ensures basedOn == "Item" ==>
      (r == g + ItemNameTail <==> g == ItemCode) && (r == g || r == g + ItemNameTail)
    ensures basedOn == "Customer" && trans == "Quotation" ==>
      (r == g + CustomerTail <==> Mentions(select, PartyName) && !Mentions(g, PartyName))
      && (r == g || r == g + CustomerTail)
    ensures basedOn == "Customer" && trans != "Quotation" ==>
      (r == g + CustomerTail <==> Mentions(select, CustomerName) && !Mentions(g, CustomerName))
      && (r == g || r == g + CustomerTail)
    ensures basedOn == "Supplier" ==>
      (r == g + SupplierTail <==> Mentions(select, SupplierName) && !Mentions(g, SupplierName))
      && (r == g || r == g + SupplierTail)
    ensures basedOn == "Project" ==>
      (r == g + ProjectTail <==> Mentions(select, ProjectName) && !Mentions(g, ProjectName))
      && (r == g || r == g + ProjectTail)
    ensures basedOn !in {"Item", "Customer", "Supplier", "Project"} ==> r == g
  {
    if basedOn == "Item" then ItemStep(g)
    else if basedOn == "Customer" then
      if trans == "Quotation" then AppendIfMissing(select, g, PartyName, CustomerTail)
      else AppendIfMissing(select, g, CustomerName, CustomerTail)
    else if basedOn == "Supplier" then AppendIfMissing(select, g, SupplierName, SupplierTail)
    else if basedOn == "Project" then AppendIfMissing(select, g, ProjectName, ProjectTail)
    else g
  }

  /** The currency step, made for every dimension: `t4.default_currency`
      is appended when the select mentions `default_currency` and the
      group_by mentions neither it nor `t4.default_currency`.  Afterwards
      the group_by mentions it whenever the select does. */
  function CurrencyStep(select: string, g: string): (r: string)
    ensures g <= r
    ensures r == g || r == g + CurrencyTail
    ensures r == g + CurrencyTail <==> Mentions(select, Currency) && !Mentions(g, Currency)
    ensures Mentions(select, Currency) ==> Mentions(r, Currency)
  {
    CurrencyRefMentionsCurrency(g);
    if Mentions(select, Currency) && !Mentions(g, Currency) && !Mentions(g, CurrencyRef) then
      CurrencyTailMentionsCurrency(g);
      g + CurrencyTail
    else g
  }

  /** The new `based_on_group_by` in staged form: the dimension step, then
      the currency step.  This is a reformulation of the same conditional
      that both copies write out; the model uses it for the copy in
      `erpnext_trends_fix.py`, and `CopiesAgree` ties it to `AdjustGroupBy`. */
  function AdjustGroupByLegacy(basedOn: string, trans: string, select: string, groupBy: string): (r: string)
    ensures groupBy <= r
    ensures Mentions(select, Currency) ==> Mentions(r, Currency)
  {
    CurrencyStep(select, DimensionStep(basedOn, trans, select, groupBy))
  }

  /** Which of the two copies is installed. */
  datatype TrendsCopy = FixErpnextTrends | ErpnextTrendsFix

  /** `patched_based_wise_columns_query` of either copy: `original` is what
      ERPNext's function returned for `(basedOn, trans)`.  Only
      `based_on_group_by` is written: every other entry is kept, the old
      group_by (empty when absent) is a prefix of the new one, and the
      new one mentions the currency column whenever the select does. */
  function PatchedColumnsQuery(copy: TrendsCopy, original: Details, basedOn: string, trans: string): (r: Details)
    ensures r.Keys == original.Keys + {GroupByKey}
    ensures forall k :: k in original && k != GroupByKey ==> r[k] == original[k]
    ensures Get(original, GroupByKey) <= r[GroupByKey]
    ensures Mentions(Get(original, SelectKey), Currency) ==> Mentions(r[GroupByKey], Currency)
  {
    var select, groupBy := Get(original, SelectKey), Get(original, GroupByKey);
    CopiesAgree(basedOn, trans, select, groupBy);
    var g := match copy
      case FixErpnextTrends => AdjustGroupBy(basedOn, trans, select, groupBy)
      case ErpnextTrendsFix => AdjustGroupByLegacy(basedOn, trans, select, groupBy);
    original[GroupByKey := g]
  }

  // ---------------------------------------------------------------------
  // Properties
  // ---------------------------------------------------------------------

  /** The two copies compute the same group_by for every input. */
  lemma CopiesAgree(basedOn: string, trans: string, select: string, groupBy: string)
    ensures AdjustGroupBy(basedOn, trans, select, groupBy) == AdjustGroupByLegacy(basedOn, trans, select, groupBy)
  {
    CurrencyRefMentionsCurrency(DimensionStep(basedOn, trans, select, groupBy));
  }

  /** `name in s` holds exactly when `name` occurs somewhere in `s`. */
  lemma MentionsMeans(s: string, name: string)
    ensures Mentions(s, name) <==> Contains(s, name)
  {
    ContainsScan(s, name);
  }

  lemma MentionsExtend(s: string, t: string, name: string)
    requires Mentions(s, name)
    ensures Mentions(s + t, name)
  {
    MentionsMeans(s, name);
    MentionsMeans(s + t, name);
    ContainsExtend(s, t, name);
  }

  lemma MentionsPrepend(s: string, t: string, name: string)
    requires Mentions(t, name)
    ensures Mentions(s + t, name)
  {
    MentionsMeans(t, name);
    MentionsMeans(s + t, name);
    ContainsPrepend(s, t, name);
  }

  lemma MentionsSelf(name: string)
    ensures Mentions(name, name)
  {
    MentionsMeans(name, name);
    ContainsAt(name, name, 0);
  }

  /** A string that mentions `a + b` mentions `b`. */
  lemma MentionsSuffix(g: string, a: string, b: string)
    requires Mentions(g, a + b)
    ensures Mentions(g, b)
  {
    MentionsMeans(g, a + b);
    MentionsMeans(g, b);
    var i: nat :| i <= |g| && LiteralAt(g, i, a + b);
    LiteralAtIsSlice(g, i, a + b);
    assert g[i + |a|..i + |a| + |b|] == (a + b)[|a|..] == b;
    ContainsAt(g, b, i + |a|);
  }

  lemma CurrencyRefMentionsCurrency(g: string)
    ensures Mentions(g, CurrencyRef) ==> Mentions(g, Currency)
  {
    if Mentions(g, CurrencyRef) {
      MentionsSuffix(g, "t4.", Currency);
    }
  }

  lemma CurrencyTailMentionsCurrency(g: string)
    ensures Mentions(g + CurrencyTail, Currency)
  {
    MentionsSelf(Currency);
    MentionsPrepend("t4.", Currency, Currency);
    MentionsPrepend(", ", CurrencyRef, Currency);
    MentionsPrepend(g, CurrencyTail, Currency);
  }

  /** Each appended tail names its column. */
  lemma TailsMentionNames()
    ensures Mentions(CustomerTail, CustomerName)
    ensures Mentions(SupplierTail, SupplierName)
    ensures Mentions(ProjectTail, ProjectName)
  {
    ContainsInfix(", t1.", CustomerName, ", t1.territory");
    MentionsMeans(CustomerTail, CustomerName);
    ContainsInfix(", t1.", SupplierName, "");
    assert ", t1." + SupplierName + "" == SupplierTail;
    MentionsMeans(SupplierTail, SupplierName);
    ContainsInfix(", t2.", ProjectName, "");
    assert ", t2." + ProjectName + "" == ProjectTail;
    MentionsMeans(ProjectTail, ProjectName);
  }

  lemma AppendMentions(select: string, g: string, name: string, tail: string)
    requires Mentions(select, name) && Mentions(tail, name)
    ensures Mentions(AppendIfMissing(select, g, name, tail), name)
  {
    if !Mentions(g, name) {
      MentionsPrepend(g, tail, name);
    }
  }

  /** After the dimension step the group_by names the dimension's column
      whenever the select does; for an Item report the group_by
      `t2.item_code` becomes `t2.item_code, t2.item_name`. */
  lemma DimensionColumnsCovered(basedOn: string, trans: string, select: string, g: string)
    ensures var r := DimensionStep(basedOn, trans, select, g);
      && (basedOn == "Item" && g == ItemCode ==> r == ItemCode + ItemNameTail)
      && (basedOn == "Customer" && trans != "Quotation" && Mentions(select, CustomerName) ==> Mentions(r, CustomerName))
      && (basedOn == "Supplier" && Mentions(select, SupplierName) ==> Mentions(r, SupplierName))
      && (basedOn == "Project" && Mentions(select, ProjectName) ==> Mentions(r, ProjectName))
  {
    TailsMentionNames();
    if basedOn == "Customer" && trans != "Quotation" && Mentions(select, CustomerName) {
      AppendMentions(select, g, CustomerName, CustomerTail);
    }
    if basedOn == "Supplier" && Mentions(select, SupplierName) {
      AppendMentions(select, g, SupplierName, SupplierTail);
    }
    if basedOn == "Project" && Mentions(select, ProjectName) {
      AppendMentions(select, g, ProjectName, ProjectTail);
    }
  }

  /** A step of the `AppendIfMissing` shape whose tail names its column
      leaves its own output alone, even with more text appended after it. */
  lemma AppendSettled(select: string, g: string, name: string, tail: string, c: string)
    requires Mentions(tail, name)
    ensures var x := AppendIfMissing(select, g, name, tail) + c;
      AppendIfMissing(select, x, name, tail) == x
  {
    if Mentions(select, name) {
      if Mentions(g, name) {
        MentionsExtend(g, c, name);
      } else {
        MentionsPrepend(g, tail, name);
        MentionsExtend(g + tail, c, name);
      }
    }
  }

  /** The dimension step applied to its own output, with the currency
      column possibly appended after it, changes nothing, except for a
      Customer report on Quotations. */
  lemma DimensionSettled(basedOn: string, trans: string, select: string, g: string, c: string)
    requires !(basedOn == "Customer" && trans == "Quotation")
    requires c == "" || c == CurrencyTail
    ensures var x := DimensionStep(basedOn, trans, select, g) + c;
      DimensionStep(basedOn, trans, select, x) == x
  {
    TailsMentionNames();
    if basedOn == "Item" {
      var x := ItemStep(g) + c;
      assert |ItemCode| == 12 && |ItemNameTail| == 14 && |CurrencyTail| == 21;
      if g == ItemCode {
        assert |x| > |ItemCode|;
      } else if c != "" {
        assert |x| > |ItemCode|;
      }
    } else if basedOn == "Customer" {
      AppendSettled(select, g, CustomerName, CustomerTail, c);
    } else if basedOn == "Supplier" {
      AppendSettled(select, g, SupplierName, SupplierTail, c);
    } else if basedOn == "Project" {
      AppendSettled(select, g, ProjectName, ProjectTail, c);
    }
  }

  /** The currency step applied to its own output changes nothing. */
  lemma CurrencySettled(select: string, g: string)
    ensures CurrencyStep(select, CurrencyStep(select, g)) == CurrencyStep(select, g)
  {
  }

  /** Applying the adjustment to its own output changes nothing, except
      for a Customer report on Quotations. */
  lemma AdjustIdempotent(basedOn: string, trans: string, select: string, groupBy: string)
    requires !(basedOn == "Customer" && trans == "Quotation")
    ensures var r := AdjustGroupBy(basedOn, trans, select, groupBy);
      AdjustGroupBy(basedOn, trans, select, r) == r
  {
    var d := DimensionStep(basedOn, trans, select, groupBy);
    var r := CurrencyStep(select, d);
    CopiesAgree(basedOn, trans, select, groupBy);
    CopiesAgree(basedOn, trans, select, r);
    var c := if r == d then "" else CurrencyTail;
    assert r == d + c;
    DimensionSettled(basedOn, trans, select, groupBy, c);
    CurrencySettled(select, d);
  }

  /** Appending a tail none of whose characters can begin `name`, and
      whose first character can continue none of its proper prefixes,
      does not make a string mention `name`. */
  lemma NotMentionsAppend(g: string, t: string, name: string)
    requires |name| > 0 && |t| > 0 && !Mentions(g, name)
    requires name[0] !in t && t[0] !in name[1..]
    ensures !Mentions(g + t, name)
  {
    MentionsMeans(g, name);
    MentionsMeans(g + t, name);
    NotContainsAppend(g, t, name);
  }

  /** Neither appended tail can begin or continue `party_name`. */
  lemma TailsLackParty()
    ensures PartyName[0] !in CustomerTail && CustomerTail[0] !in PartyName[1..]
    ensures PartyName[0] !in CurrencyTail && CurrencyTail[0] !in PartyName[1..]
  {
    assert PartyName[0] == 'p' && PartyName[1..] == "arty_name";
    assert CustomerTail[0] == ',' && CurrencyTail[0] == ',';
    assert 'p' !in ", t1." && 'p' !in CustomerName && 'p' !in ", t1.territory";
    assert 'p' !in ", " && 'p' !in "t4." && 'p' !in Currency;
  }

  /** For a Customer report on Quotations whose select names `party_name`
      and whose group_by does not, every application appends
      `customer_name` and `territory` again: the guard looks for a column
      the step never adds. */
  lemma QuotationRepeats(select: string, groupBy: string)
    requires Mentions(select, PartyName) && !Mentions(groupBy, PartyName)
    ensures var r := AdjustGroupBy("Customer", "Quotation", select, groupBy);
      && r != groupBy
      && AdjustGroupBy("Customer", "Quotation", select, r) == r + CustomerTail
  {
    var d := groupBy + CustomerTail;
    CopiesAgree("Customer", "Quotation", select, groupBy);
    var r := CurrencyStep(select, d);
    TailsLackParty();
    NotMentionsAppend(groupBy, CustomerTail, PartyName);
    if r != d {
      NotMentionsAppend(d, CurrencyTail, PartyName);
    }
    CopiesAgree("Customer", "Quotation", select, r);
    if Mentions(select, Currency) {
      MentionsExtend(r, CustomerTail, Currency);
    }
  }
}
