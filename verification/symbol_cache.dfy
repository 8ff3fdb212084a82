/** The caching evaluator that writes the values of bool and tristate symbols into them. */
module SymbolCache {
  import opened Common
  import opened KconfigSyntax
  import opened SymbolValues

  /** The fields of a symbol that evaluation writes; `valid` is the cache bit. */
  datatype Slot = Slot(valid: bool, tri: Tri, visible: Tri, direct: Tri, selected: Tri, implied: Tri, write: bool)

  ghost predicate IsRight(net: Net, i: nat, slot: Slot)
    requires Acyclic(net) && i < |net.graph.decls|
  {
    && slot.tri == Value(net, i)
    && slot.visible == Visible(net, i)
    && slot.direct == Direct(net, i)
    && slot.selected == Selected(net, i)
    && slot.implied == Implied(net, i)
    && (slot.write <==> Written(net, i))
  }

  class Evaluator {
    var net: Net
    const slots: array<Slot>

    ghost predicate Fits()
      reads this
    {
      Acyclic(net) && slots.Length == |net.graph.decls|
    }

    /** Whatever is cached below rank k is right. */
    ghost predicate RightBelow(k: nat)
      requires Fits()
      reads this, slots
    {
      forall i :: 0 <= i < slots.Length && slots[i].valid && net.graph.rank[i] < k ==> IsRight(net, i, slots[i])
    }

    /** Evaluation below rank k leaves the other symbols and everything cached alone. */
    twostate predicate OnlyFills(k: nat)
      requires Fits()
      reads this, slots
    {
      forall i :: 0 <= i < slots.Length && (net.graph.rank[i] >= k || old(slots[i]).valid) ==> slots[i] == old(slots[i])
    }

    /** As OnlyFills, except that symbol i, of rank k, is being worked on. */
    twostate predicate OnlyFillsBut(i: nat, k: nat)
      requires Fits()
      reads this, slots
    {
      forall j :: 0 <= j < slots.Length && j != i && (net.graph.rank[j] >= k || old(slots[j]).valid) ==>
        slots[j] == old(slots[j])
    }

    /** sym_get_tristate_value and sym_get_string_value after sym_calc_value, for any symbol an
        expression may mention */
    method CalcSymbol(s: Symbol, ghost k: nat) returns (t: Tri, str: string)
      requires Fits() && Below(net.graph, s, k) && RightBelow(k)
      modifies slots
      ensures t == SymTri(net, s, k) && str == SymString(net, s, k)
      ensures RightBelow(k) && OnlyFills(k)
      decreases k, 0
    {
      if s.HasTri() {
        CalcValue(s.id);
        t := slots[s.id].tri;
        str := StringOf(net.modules, t);
      } else {
        t, str := net.fixed.tri(s), net.fixed.str(s);
      }
    }

    /** expr_calc_value */
    method CalcExpr(e: Expr, ghost k: nat) returns (t: Tri)
      requires Fits() && ExprBelow(net.graph, e, k) && RightBelow(k)
      modifies slots
      ensures t == ValueIn(net, e, k)
      ensures RightBelow(k) && OnlyFills(k)
      decreases k, 1, e
    {
      match e {
        case Sym(s) =>
          var str;
          t, str := CalcSymbol(s, k);
        case Not(a) =>
          t := CalcExpr(a, k);
          t := 2 - t;
        case Bin(op, l, r) =>
          var x := CalcExpr(l, k);
          var y := CalcExpr(r, k);
          t := Combine(op, x, y);
        case Comp(op, a, b) =>
          var x, sa := CalcSymbol(a, k);
          var y, sb := CalcSymbol(b, k);
          t := if Holds(op, CompareStrings(net.fixed.number, a, sa, b, sb)) then YES else NO;
      }
    }

    method CalcOpt(e: Option<Expr>, ghost k: nat) returns (t: Tri)
      requires Fits() && OptBelow(net.graph, e, k) && RightBelow(k)
      modifies slots
      ensures t == ValueOpt(net, e, k)
      ensures RightBelow(k) && OnlyFills(k)
      decreases k, 2
    {
      if e.None? { t := YES; } else { t := CalcExpr(e.value, k); }
    }

    /** sym_calc_visibility, lines 216-239: any prompt visible? */
    method CalcPrompts(i: nat)
      requires Fits() && i < slots.Length && RightBelow(net.graph.rank[i])
      modifies slots
      ensures RightBelow(net.graph.rank[i]) && OnlyFillsBut(i, net.graph.rank[i])
      ensures slots[i] == old(slots[i]).(visible := Visible(net, i))
      decreases net.graph.rank[i], 3
    {
      var prompts := net.graph.decls[i].prompts;
      var tri := NO;
      for p := 0 to |prompts|
        invariant RightBelow(net.graph.rank[i]) && OnlyFills(net.graph.rank[i])
        invariant tri == MaxOf(net, prompts[..p], net.graph.rank[i])
      {
        var t := CalcOpt(prompts[p], net.graph.rank[i]);
        assert prompts[..p + 1][..p] == prompts[..p];
        tri := Max(tri, t);
      }
      assert prompts[..|prompts|] == prompts;
      if tri == MOD && (!net.graph.decls[i].ty.Tristate? || net.modules == NO) { tri := YES; }
      slots[i] := slots[i].(visible := tri);
    }

    /** sym_calc_visibility, lines 243-251 */
    method CalcDirect(i: nat)
      requires Fits() && i < slots.Length && RightBelow(net.graph.rank[i])
      modifies slots
      ensures RightBelow(net.graph.rank[i]) && OnlyFillsBut(i, net.graph.rank[i])
      ensures slots[i] == old(slots[i]).(direct := Direct(net, i))
      decreases net.graph.rank[i], 3
    {
      var tri := CalcOpt(net.graph.decls[i].dirDep, net.graph.rank[i]);
      if tri == MOD { tri := YES; }
      slots[i] := slots[i].(direct := tri);
    }

    /** sym_calc_visibility, lines 252-260 */
    method CalcSelected(i: nat)
      requires Fits() && i < slots.Length && RightBelow(net.graph.rank[i])
      modifies slots
      ensures RightBelow(net.graph.rank[i]) && OnlyFillsBut(i, net.graph.rank[i])
      ensures slots[i] == old(slots[i]).(selected := Selected(net, i))
      decreases net.graph.rank[i], 3
    {
      var tri := NO;
      var e := net.graph.decls[i].revDep;
      if e.Some? { tri := CalcExpr(e.value, net.graph.rank[i]); }
      if tri == MOD && EffectiveType(net, i).Bool? { tri := YES; }
      slots[i] := slots[i].(selected := tri);
    }

    /** sym_calc_visibility, lines 261-269: only looked at while the direct dependency holds */
    method CalcImplied(i: nat)
      requires Fits() && i < slots.Length && RightBelow(net.graph.rank[i])
      requires slots[i].direct == Direct(net, i)
      modifies slots
      ensures RightBelow(net.graph.rank[i]) && OnlyFillsBut(i, net.graph.rank[i])
      ensures slots[i] == old(slots[i]).(implied := Implied(net, i))
      decreases net.graph.rank[i], 3
    {
      var tri := NO;
      var e := net.graph.decls[i].implied;
      if e.Some? && slots[i].direct != NO { tri := CalcExpr(e.value, net.graph.rank[i]); }
      if tri == MOD && EffectiveType(net, i).Bool? { tri := YES; }
      slots[i] := slots[i].(implied := tri);
    }

    /** sym_calc_visibility */
    method CalcVisibility(i: nat)
      requires Fits() && i < slots.Length && RightBelow(net.graph.rank[i])
      modifies slots
      ensures RightBelow(net.graph.rank[i]) && OnlyFillsBut(i, net.graph.rank[i])
      ensures slots[i] == old(slots[i]).(visible := Visible(net, i), direct := Direct(net, i),
                                         selected := Selected(net, i), implied := Implied(net, i))
      decreases net.graph.rank[i], 4
    {
      CalcPrompts(i);
      CalcDirect(i);
      CalcSelected(i);
      CalcImplied(i);
    }

    /** sym_get_default_prop, with the value of the default found */
    method CalcDefault(i: nat) returns (r: Option<Tri>)
      requires Fits() && i < slots.Length && RightBelow(net.graph.rank[i])
      modifies slots
      ensures r == Default(net, net.graph.decls[i].defaults, net.graph.rank[i])
      ensures RightBelow(net.graph.rank[i]) && OnlyFills(net.graph.rank[i])
      decreases net.graph.rank[i], 3
    {
      var ds := net.graph.decls[i].defaults;
      for p := 0 to |ds|
        invariant RightBelow(net.graph.rank[i]) && OnlyFills(net.graph.rank[i])
        invariant Default(net, ds, net.graph.rank[i]) == Default(net, ds[p..], net.graph.rank[i])
      {
        var c := CalcOpt(ds[p].0, net.graph.rank[i]);
        if c != NO {
          var t := CalcExpr(ds[p].1, net.graph.rank[i]);
          return Some(Min(t, c));
        }
      }
      r := None;
    }

    /** sym_calc_value, lines 402-413: the default, raised to the implied value */
    method CalcDefaulted(i: nat) returns (newval: Tri)
      requires Fits() && i < slots.Length && RightBelow(net.graph.rank[i])
      requires slots[i].implied == Implied(net, i)
      modifies slots
      ensures newval == Defaulted(net, i)
      ensures RightBelow(net.graph.rank[i]) && OnlyFillsBut(i, net.graph.rank[i])
      ensures slots[i] == old(slots[i]).(write :=
                old(slots[i]).write || DefaultOf(net, i).Some? || Implied(net, i) != NO)
      decreases net.graph.rank[i], 4
    {
      newval := NO;
      var d := CalcDefault(i);
      if d.Some? {
        slots[i] := slots[i].(write := true);
        newval := d.value;
      }
      if slots[i].implied != NO {
        slots[i] := slots[i].(write := true);
        newval := Max(newval, slots[i].implied);
      }
    }

    /** sym_calc_value, lines 389-413: the value before selects, and the write flag */
    method CalcChosen(i: nat) returns (newval: Tri)
      requires Fits() && i < slots.Length && RightBelow(net.graph.rank[i]) && !slots[i].write
      requires slots[i].visible == Visible(net, i) && slots[i].selected == Selected(net, i)
      requires slots[i].implied == Implied(net, i)
      modifies slots
      ensures newval == Chosen(net, i)
      ensures RightBelow(net.graph.rank[i]) && OnlyFillsBut(i, net.graph.rank[i])
      ensures slots[i] == old(slots[i]).(write := Written(net, i))
      decreases net.graph.rank[i], 5
    {
      if slots[i].visible != NO {
        slots[i] := slots[i].(write := true);
        if net.user[i].Some? {
          return Min(net.user[i].value, slots[i].visible);
        }
      }
      if slots[i].selected != NO { slots[i] := slots[i].(write := true); }
      newval := CalcDefaulted(i);
    }

    /** sym_calc_value */
    method CalcValue(i: nat)
      requires Fits() && i < slots.Length && RightBelow(net.graph.rank[i])
      requires slots[i].valid ==> IsRight(net, i, slots[i])
      modifies slots
      ensures slots[i].valid && IsRight(net, i, slots[i])
      ensures RightBelow(net.graph.rank[i]) && OnlyFillsBut(i, net.graph.rank[i])
      ensures old(slots[i]).valid ==> slots[i] == old(slots[i])
      decreases net.graph.rank[i], 6
    {
      if slots[i].valid { return; }
      slots[i] := slots[i].(valid := true, write := false);
      CalcVisibility(i);
      slots[i] := slots[i].(tri := NO);
      var newval := CalcChosen(i);
      newval := Max(newval, slots[i].selected);
      if newval == MOD && (EffectiveType(net, i).Bool? || slots[i].implied == YES) { newval := YES; }
      slots[i] := slots[i].(tri := newval);
    }

    /** sym_clear_all_valid (the modules symbol is recomputed separately, its value being fixed) */
    method ClearAllValid()
      requires Fits()
      modifies slots
      ensures forall i :: 0 <= i < slots.Length ==> slots[i] == old(slots[i]).(valid := false)
    {
      for i := 0 to slots.Length
        invariant forall j :: 0 <= j < slots.Length ==>
                    slots[j] == if j < i then old(slots[j]).(valid := false) else old(slots[j])
      {
        slots[i] := slots[i].(valid := false);
      }
    }

    /** Everything cached is right. */
    ghost predicate AllRight()
      reads this, slots
    {
      Fits() && forall i :: 0 <= i < slots.Length && slots[i].valid ==> IsRight(net, i, slots[i])
    }

    /** The cache is invisible: whatever was computed before, and in whatever order symbols are
        asked for, each of them ends up with the value of the recursive definition. */
    method CalcInOrder(order: seq<nat>)
      requires AllRight() && forall p :: 0 <= p < |order| ==> order[p] < slots.Length
      modifies slots
      ensures AllRight()
      ensures forall p :: 0 <= p < |order| ==> slots[order[p]].valid && IsRight(net, order[p], slots[order[p]])
      ensures forall i :: 0 <= i < slots.Length && old(slots[i]).valid ==> slots[i] == old(slots[i])
    {
      for p := 0 to |order|
        invariant AllRight()
        invariant forall q :: 0 <= q < p ==> slots[order[q]].valid
        invariant forall i :: 0 <= i < slots.Length && old(slots[i]).valid ==> slots[i] == old(slots[i])
      {
        CalcValue(order[p]);
      }
    }

    /** sym_tristate_within_range, outside choices */
    method TristateWithinRange(i: nat, val: Tri) returns (ok: bool)
      requires AllRight() && i < slots.Length && slots[i].valid
      ensures ok == WithinRange(net, i, val)
    {
      if slots[i].visible == NO { return false; }
      if EffectiveType(net, i).Bool? && val == MOD { return false; }
      if slots[i].visible <= slots[i].selected { return false; }
      if slots[i].implied == YES && val == MOD { return false; }
      return val >= slots[i].selected && val <= slots[i].visible;
    }

    /** sym_set_tristate_value, outside choices */
    method SetTristateValue(i: nat, val: Tri) returns (ok: bool)
      requires AllRight() && i < slots.Length && slots[i].valid
      modifies this`net, slots
      ensures ok == (Value(old(net), i) == val || WithinRange(old(net), i, val))
      ensures net == if ok then WithUser(old(net), i, val) else old(net)
      ensures forall j :: 0 <= j < slots.Length ==>
                slots[j] == old(slots[j]).(valid := old(slots[j]).valid && (!ok || Value(old(net), i) == val))
    {
      var oldval := slots[i].tri;
      if oldval != val {
        var within := TristateWithinRange(i, val);
        if !within { return false; }
      }
      net := net.(user := net.user[i := Some(val)]);
      if oldval != val { ClearAllValid(); }
      ok := true;
    }

    /** Setting an accepted value and recalculating the network in any order yields that value. */
    method SetAndRecalculate(i: nat, val: Tri, order: seq<nat>)
      requires AllRight() && Proper(net.fixed) && i < slots.Length && slots[i].valid
      requires slots[i].tri != val && WithinRange(net, i, val)
      requires i in order && forall p :: 0 <= p < |order| ==> order[p] < slots.Length
      modifies this`net, slots
      ensures AllRight() && net == WithUser(old(net), i, val)
      ensures slots[i].valid && slots[i].tri == val
    {
      SetThenGet(net, i, val);
      var ok := SetTristateValue(i, val);
      CalcInOrder(order);
    }
  }
}
