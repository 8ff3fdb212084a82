/** Dependency expressions of the configuration language and their three-valued meaning. */
module KconfigSyntax {
  import opened Common

  /** no, mod and yes are the integers 0, 1 and 2, exactly as the enum orders them. */
  type Tri = x: int | 0 <= x <= 2

  const NO: Tri := 0
  const MOD: Tri := 1
  const YES: Tri := 2

  function Min(x: Tri, y: Tri): Tri { if x < y then x else y }

  function Max(x: Tri, y: Tri): Tri { if x > y then x else y }

  datatype SymbolType = Unknown | Bool | Tristate | Int | Hex | Str

  /** Constant symbols are looked up by name, so two of them are the same object exactly
      when they have the same name; every other symbol is known by its identity. */
  datatype Symbol = Const(name: string) | Config(id: nat, ty: SymbolType) {

    function Type(): SymbolType { if Const? then Unknown else ty }

    predicate HasTri() { Type().Bool? || Type().Tristate? }
  }

  const SYM_YES := Const("y")
  const SYM_MOD := Const("m")
  const SYM_NO := Const("n")

  datatype BinOp = And | Or
  datatype CmpOp = Eq | Ne | Lt | Le | Gt | Ge

  datatype Expr =
    | Sym(sym: Symbol)
    | Not(arg: Expr)
    | Bin(op: BinOp, left: Expr, right: Expr)
    | Comp(cmp: CmpOp, lhs: Symbol, rhs: Symbol)
  {
    predicate IsBin(o: BinOp) { Bin? && op == o }
  }

  type Numbers = (SymbolType, string) -> Option<int>

  /** A snapshot of what `curr` holds for every symbol. `number` stands for the strtoll family:
      the value a string parses to under the base its symbol type selects, if it parses fully. */
  datatype Valuation = Valuation(
    tri: Symbol -> Tri,
    str: Symbol -> string,
    number: Numbers)

  function TriString(t: Tri): string { if t == NO then "n" else if t == MOD then "m" else "y" }

  /** What a completed evaluation guarantees about the snapshot. */
  ghost predicate Proper(v: Valuation) {
    && v.tri(SYM_YES) == YES && v.tri(SYM_MOD) == MOD && v.tri(SYM_NO) == NO
    && (forall s: Symbol :: s.Const? ==> v.str(s) == s.name)
    && (forall s: Symbol :: s.HasTri() ==> v.str(s) == TriString(v.tri(s)))
    && (forall s: Symbol :: s.Type().Bool? ==> v.tri(s) != MOD)
    && (forall s: Symbol :: s == SYM_YES || s == SYM_MOD || s == SYM_NO ==> v.number(Unknown, s.name).None?)
  }

  function Strcmp(a: string, b: string): (r: int)
    ensures r == 0 <==> a == b
  {
    if a == [] && b == [] then 0
    else if a == [] then -1
    else if b == [] then 1
    else if a[0] != b[0] then a[0] as int - b[0] as int
    else
      var r := Strcmp(a[1..], b[1..]);
      assert r == 0 ==> a == [a[0]] + a[1..] == [b[0]] + b[1..] == b;
      r
  }

  const TWO_TO_64: int := 0x1_0000_0000_0000_0000

  /** The 64-bit pattern of a parsed number read as unsigned. */
  function AsUnsigned(x: int): int { x % TWO_TO_64 }

  function Sign(x: int, y: int): int { if x > y then 1 else if x < y then -1 else 0 }

  function ParsedNumber(number: Numbers, s: Symbol, str: string): Option<int> {
    if s.HasTri() then None else number(s.Type(), str)
  }

  /** The ordering of two symbols by their string values: as numbers if both are numbers,
      otherwise as strings. */
  function CompareStrings(number: Numbers, a: Symbol, sa: string, b: Symbol, sb: string): int {
    if a.Type().Str? && b.Type().Str? then Strcmp(sa, sb)
    else
      match (ParsedNumber(number, a, sa), ParsedNumber(number, b, sb))
      case (Some(x), Some(y)) =>
        if a.Type().Hex? || b.Type().Hex? then Sign(AsUnsigned(x), AsUnsigned(y)) else Sign(x, y)
      case _ => Strcmp(sa, sb)
  }

  function Compare(v: Valuation, a: Symbol, b: Symbol): int {
    CompareStrings(v.number, a, v.str(a), b, v.str(b))
  }

  predicate Holds(op: CmpOp, res: int) {
    match op
    case Eq => res == 0
    case Ne => res != 0
    case Lt => res < 0
    case Le => res <= 0
    case Gt => res > 0
    case Ge => res >= 0
  }

  function Combine(op: BinOp, x: Tri, y: Tri): Tri { if op.And? then Min(x, y) else Max(x, y) }

  function Eval(v: Valuation, e: Expr): Tri {
    match e
    case Sym(s) => v.tri(s)
    case Not(a) => 2 - Eval(v, a)
    case Bin(op, l, r) => Combine(op, Eval(v, l), Eval(v, r))
    case Comp(op, a, b) => if Holds(op, Compare(v, a, b)) then YES else NO
  }

  /** A missing expression means "always". */
  function EvalOpt(v: Valuation, e: Option<Expr>): Tri { if e.None? then YES else Eval(v, e.value) }

  function Size(e: Expr): nat {
    match e
    case Sym(_) => 1
    case Comp(_, _, _) => 1
    case Not(a) => 1 + Size(a)
    case Bin(_, l, r) => 1 + Size(l) + Size(r)
  }

  /** The neutral constant of an operator, and the one that decides it. */
  function Unit(op: BinOp): Symbol { if op.And? then SYM_YES else SYM_NO }

  function Zero(op: BinOp): Symbol { if op.And? then SYM_NO else SYM_YES }

  predicate IsYesOrNo(e: Expr) { e.Sym? && (e.sym == SYM_YES || e.sym == SYM_NO) }

  /** Negation is applied to symbols only. */
  predicate NegOnSymbols(e: Expr) {
    match e
    case Not(a) => a.Sym?
    case Bin(_, l, r) => NegOnSymbols(l) && NegOnSymbols(r)
    case _ => true
  }

  /** Every symbol mentioned is a constant, a number or string symbol, or in S. */
  predicate UsesOnly(e: Expr, S: set<Symbol>) {
    match e
    case Sym(s) => s.HasTri() ==> s in S
    case Not(a) => UsesOnly(a, S)
    case Bin(_, l, r) => UsesOnly(l, S) && UsesOnly(r, S)
    case Comp(_, a, b) => (a.HasTri() ==> a in S) && (b.HasTri() ==> b in S)
  }

  function AllocAnd(a: Option<Expr>, b: Option<Expr>): Option<Expr> {
    if a.None? then b else if b.None? then a else Some(Bin(And, a.value, b.value))
  }

  function AllocOr(a: Option<Expr>, b: Option<Expr>): Option<Expr> {
    if a.None? then b else if b.None? then a else Some(Bin(Or, a.value, b.value))
  }
}
