module Rewriter {
  // The hand-ordered rewriter: it terminates on every term in a form no rule applies to, no
  // larger than before, with the same value when there is no division; and the order of its
  // division rules makes no difference.

  import opened Common

  datatype Expr =
    | Num(n: int)
    | Var(name: string)
    | Add(left: Expr, right: Expr)
    | Mul(left: Expr, right: Expr)
    | Div(left: Expr, right: Expr)
    | Shl(left: Expr, right: Expr)

  predicate Leaf(e: Expr) {
    e.Num? || e.Var?
  }

  function Cost(e: Expr): (c: nat)
    ensures c >= 1
  {
    if Leaf(e) then 1 else 1 + Cost(e.left) + Cost(e.right)
  }

  // ---------------------------------------------------------------- the rules

  /** Machine division truncates toward zero. */
  function Quotient(x: int, y: int): int
    requires y != 0
  {
    if x >= 0 then x / y else -((-x) / y)
  }

  function Fold(e: Expr): Option<Expr> {
    match e
    case Add(Num(x), Num(y)) => Some(Num(x + y))
    case Mul(Num(x), Num(y)) => Some(Num(x * y))
    case Div(Num(x), Num(y)) => if y != 0 then Some(Num(Quotient(x, y))) else None
    case _ => None
  }

  function DivRules(e: Expr): Option<Expr> {
    match e
    case Div(Mul(x, y), z) => Some(Mul(x, Div(y, z)))
    case Div(m, z) => if z == Num(1) then Some(m) else None
    case _ => None
  }

  function Strength(e: Expr): Option<Expr> {
    match e
    case Mul(a, b) => if b == Num(2) then Some(Shl(a, Num(1))) else if a == Num(2) then Some(Shl(b, Num(1))) else None
    case _ => None
  }

  function Identities(e: Expr): Option<Expr> {
    match e
    case Mul(a, b) =>
      if b == Num(1) then Some(a) else if a == Num(1) then Some(b)
      else if a == Num(0) || b == Num(0) then Some(Num(0)) else None
    case Add(a, b) => if b == Num(0) then Some(a) else if a == Num(0) then Some(b) else None
    case _ => None
  }

  function SelfDivision(e: Expr): Option<Expr> {
    match e
    case Div(a, b) => if a == b then Some(Num(1)) else None
    case _ => None
  }

  function OrElse(a: Option<Expr>, b: Option<Expr>): Option<Expr> {
    if a.Some? then a else b
  }

  /** The first matching rule wins. */
  function TryRules(e: Expr, divFirst: bool): Option<Expr> {
    var late := OrElse(Strength(e), Identities(e));
    var middle := if divFirst then OrElse(DivRules(e), late) else OrElse(late, DivRules(e));
    OrElse(Fold(e), OrElse(middle, SelfDivision(e)))
  }

  /** Tries the rules on a node whose operands are done, after n firings. */
  function AtNode(rebuilt: Expr, n: nat, divFirst: bool): (Expr, nat) {
    match TryRules(rebuilt, divFirst)
    case Some(next) => (next, n + 1)
    case None => (rebuilt, n)
  }

  /** The node with operands x and y. */
  function Rebuilt(e: Expr, x: Expr, y: Expr): Expr
    requires !Leaf(e)
  {
    match e
    case Add(_, _) => Add(x, y)
    case Mul(_, _) => Mul(x, y)
    case Div(_, _) => Div(x, y)
    case Shl(_, _) => Shl(x, y)
  }

  /** A node whose operands are done, each with its firings. */
  function WithOperands(e: Expr, left: (Expr, nat), right: (Expr, nat), divFirst: bool): (Expr, nat)
    requires !Leaf(e)
  {
    AtNode(Rebuilt(e, left.0, right.0), left.1 + right.1, divFirst)
  }

  /** One bottom-up pass, and the rules it fired. */
  function Pass(e: Expr, divFirst: bool): (Expr, nat) {
    if Leaf(e) then AtNode(e, 0, divFirst) else
      WithOperands(e, Pass(e.left, divFirst), Pass(e.right, divFirst), divFirst)
  }

  // ---------------------------------------------------------------- the measure

  function Muls(e: Expr): nat {
    if Leaf(e) then 0 else (if e.Mul? then 1 else 0) + Muls(e.left) + Muls(e.right)
  }

  /** The sizes of all numerators. */
  function Numerators(e: Expr): nat {
    if Leaf(e) then 0 else (if e.Div? then Cost(e.left) else 0) + Numerators(e.left) + Numerators(e.right)
  }

  /** x is below e in the order (nodes, products, numerator sizes). */
  ghost predicate Smaller(x: Expr, e: Expr) {
    || Cost(x) < Cost(e)
    || (Cost(x) == Cost(e) && Muls(x) < Muls(e))
    || (Cost(x) == Cost(e) && Muls(x) == Muls(e) && Numerators(x) < Numerators(e))
  }

  ghost predicate NoLarger(x: Expr, e: Expr) {
    Smaller(x, e) || (Cost(x) == Cost(e) && Muls(x) == Muls(e) && Numerators(x) == Numerators(e))
  }

  /** Every rule makes its term smaller. */
  lemma RuleDecreases(e: Expr, divFirst: bool)
    requires TryRules(e, divFirst).Some?
    ensures Smaller(TryRules(e, divFirst).value, e)
  {
    var r := TryRules(e, divFirst);
    if r == Fold(e) || r == Identities(e) || r == SelfDivision(e) {
    } else if r == Strength(e) {
      StrengthDecreases(e);
    } else {
      DivDecreases(e);
    }
  }

  lemma StrengthDecreases(e: Expr)
    requires Strength(e).Some?
    ensures Smaller(Strength(e).value, e)
  {
    assert Cost(Num(1)) == Cost(Num(2)) == 1;
  }

  lemma DivDecreases(e: Expr)
    requires DivRules(e).Some?
    ensures Smaller(DivRules(e).value, e)
  {
    match e
    case Div(Mul(x, y), z) =>
      var r := Mul(x, Div(y, z));
      assert Cost(r) == Cost(e) && Muls(r) == Muls(e);
      assert Numerators(e) == Cost(Mul(x, y)) + Numerators(x) + Numerators(y) + Numerators(z);
      assert Numerators(r) == Numerators(x) + Cost(y) + Numerators(y) + Numerators(z);
    case _ =>
  }

  /** Replacing the operands of a node by smaller ones makes it smaller. */
  ghost predicate Operands(e: Expr, a: Expr, b: Expr, x: Expr, y: Expr, f: Expr) {
    || (e == Add(a, b) && f == Add(x, y)) || (e == Mul(a, b) && f == Mul(x, y))
    || (e == Div(a, b) && f == Div(x, y)) || (e == Shl(a, b) && f == Shl(x, y))
  }

  /** The lexicographic order on three numbers. */
  predicate Less(a: nat, b: nat, c: nat, x: nat, y: nat, z: nat) {
    a < x || (a == x && (b < y || (b == y && c < z)))
  }

  /** The measures of a node from those of its operands: (c, m, n) and (d, o, q) with the first
      not above (c', m', n') and the second not above (d', o', q'). */
  lemma LessAdds(c: nat, m: nat, n: nat, c': nat, m': nat, n': nat, d: nat, o: nat, q: nat, d': nat, o': nat, q': nat,
                 own: nat, divides: bool)
    requires Less(c, m, n, c', m', n') || (c == c' && m == m' && n == n')
    requires Less(d, o, q, d', o', q') || (d == d' && o == o' && q == q')
    ensures var less := Less(1 + c + d, own + m + o, (if divides then c else 0) + n + q,
                             1 + c' + d', own + m' + o', (if divides then c' else 0) + n' + q');
            if Less(c, m, n, c', m', n') || Less(d, o, q, d', o', q') then less
            else c == c' && m == m' && n == n' && d == d' && o == o' && q == q'
  {
  }

  lemma ContextDecreases(e: Expr, a: Expr, b: Expr, x: Expr, y: Expr, f: Expr)
    requires Operands(e, a, b, x, y, f) && NoLarger(x, a) && NoLarger(y, b)
    ensures NoLarger(f, e) && (Smaller(x, a) || Smaller(y, b) ==> Smaller(f, e))
  {
    LessAdds(Cost(x), Muls(x), Numerators(x), Cost(a), Muls(a), Numerators(a),
             Cost(y), Muls(y), Numerators(y), Cost(b), Muls(b), Numerators(b), if e.Mul? then 1 else 0, e.Div?);
    assert !Leaf(e) && !Leaf(f) && e.left == a && e.right == b && f.left == x && f.right == y;
    assert e.Mul? == f.Mul? && e.Div? == f.Div?;
  }

  lemma SmallerTransitive(x: Expr, y: Expr, z: Expr)
    requires Smaller(x, y) && NoLarger(y, z)
    ensures Smaller(x, z)
  {
  }

  // ---------------------------------------------------------------- one firing anywhere

  /** f comes from e by firing one rule at one place. */
  ghost predicate Fires(e: Expr, f: Expr, divFirst: bool) {
    || TryRules(e, divFirst) == Some(f)
    || match (e, f) {
         case (Add(a, b), Add(x, y)) => (Fires(a, x, divFirst) && b == y) || (a == x && Fires(b, y, divFirst))
         case (Mul(a, b), Mul(x, y)) => (Fires(a, x, divFirst) && b == y) || (a == x && Fires(b, y, divFirst))
         case (Div(a, b), Div(x, y)) => (Fires(a, x, divFirst) && b == y) || (a == x && Fires(b, y, divFirst))
         case (Shl(a, b), Shl(x, y)) => (Fires(a, x, divFirst) && b == y) || (a == x && Fires(b, y, divFirst))
         case _ => false
       }
  }

  /** Every firing, in any context, decreases the measure. */
  lemma {:induction false} FiringDecreases(e: Expr, f: Expr, divFirst: bool)
    requires Fires(e, f, divFirst)
    ensures Smaller(f, e)
  {
    if TryRules(e, divFirst) == Some(f) {
      RuleDecreases(e, divFirst);
    } else {
      var a, b, x, y := e.left, e.right, f.left, f.right;
      if Fires(a, x, divFirst) && b == y {
        FiringDecreases(a, x, divFirst);
      } else {
        FiringDecreases(b, y, divFirst);
      }
      ContextDecreases(e, a, b, x, y, f);
    }
  }

  /** No rule applies to e or any of its subterms. */
  ghost predicate Normal(e: Expr, divFirst: bool) {
    && TryRules(e, divFirst) == None
    && match e {
         case Num(_) => true
         case Var(_) => true
         case Add(a, b) => Normal(a, divFirst) && Normal(b, divFirst)
         case Mul(a, b) => Normal(a, divFirst) && Normal(b, divFirst)
         case Div(a, b) => Normal(a, divFirst) && Normal(b, divFirst)
         case Shl(a, b) => Normal(a, divFirst) && Normal(b, divFirst)
       }
  }

  lemma {:induction false} NormalStops(e: Expr, f: Expr, divFirst: bool)
    requires Normal(e, divFirst)
    ensures !Fires(e, f, divFirst)
  {
    if !Leaf(e) && !Leaf(f) {
      NormalStops(e.left, f.left, divFirst);
      NormalStops(e.right, f.right, divFirst);
    }
  }

  lemma {:induction false} SomethingFires(e: Expr, divFirst: bool) returns (f: Expr)
    requires !Normal(e, divFirst)
    ensures Fires(e, f, divFirst)
  {
    if TryRules(e, divFirst).Some? {
      f := TryRules(e, divFirst).value;
    } else if !Normal(e.left, divFirst) {
      f := SomethingFires(e.left, divFirst);
      f := Rebuilt(e, f, e.right);
    } else {
      f := SomethingFires(e.right, divFirst);
      f := Rebuilt(e, e.left, f);
    }
  }

  /** Normal terms are exactly those where nothing fires. */
  lemma NormalMeansNoFiring(e: Expr, divFirst: bool)
    ensures Normal(e, divFirst) ==> forall f :: !Fires(e, f, divFirst)
    ensures !Normal(e, divFirst) ==> exists f :: Fires(e, f, divFirst)
  {
    if Normal(e, divFirst) {
      forall f ensures !Fires(e, f, divFirst) {
        NormalStops(e, f, divFirst);
      }
    } else {
      var f := SomethingFires(e, divFirst);
    }
  }

  // ---------------------------------------------------------------- the rules by their shapes

  /** A sum, product or quotient of two numerals. */
  predicate OnNumerals(e: Expr) {
    !Leaf(e) && !e.Shl? && e.left.Num? && e.right.Num? && (e.Div? ==> e.right != Num(0))
  }

  /** The shapes some rule rewrites. */
  predicate Reducible(e: Expr) {
    || OnNumerals(e)
    || (e.Add? && (e.left == Num(0) || e.right == Num(0)))
    || (e.Mul? && (e.left in {Num(0), Num(1), Num(2)} || e.right in {Num(0), Num(1), Num(2)}))
    || (e.Div? && (e.left.Mul? || e.right == Num(1) || e.left == e.right))
  }

  /** s is e or stands somewhere inside it. */
  predicate Occurs(s: Expr, e: Expr) {
    s == e || (!Leaf(e) && (Occurs(s, e.left) || Occurs(s, e.right)))
  }

  /** Nothing in e has a shape some rule rewrites. */
  ghost predicate Irreducible(e: Expr) {
    forall s :: Occurs(s, e) ==> !Reducible(s)
  }

  /** f is what the shape of e becomes: numerals are computed, a doubling becomes a shift, zeros
      and ones disappear, a product leaves the numerator, and equal sides give one. */
  predicate Becomes(e: Expr, f: Expr) {
    if OnNumerals(e) then
      var x, y := e.left.n, e.right.n;
      && f.Num? && (e.Add? ==> f.n == x + y) && (e.Mul? ==> f.n == x * y)
      && (e.Div? ==> f.n == if x >= 0 then x / y else -((-x) / y))
    else match e
      case Add(a, b) => (b == Num(0) && f == a) || (a == Num(0) && f == b)
      case Mul(a, b) =>
        if a == Num(2) || b == Num(2) then f == Shl(if b == Num(2) then a else b, Num(1))
        else if a == Num(1) || b == Num(1) then f == if b == Num(1) then a else b
        else (a == Num(0) || b == Num(0)) && f == Num(0)
      case Div(a, b) =>
        if a.Mul? then f == Mul(a.left, Div(a.right, b))
        else if b == Num(1) then f == a
        else a == b && f == Num(1)
      case _ => false
  }

  /** A rule applies to exactly the reducible shapes, and rewrites each as it should. */
  lemma RulesByShape(e: Expr, divFirst: bool)
    ensures TryRules(e, divFirst).Some? <==> Reducible(e)
    ensures forall f :: TryRules(e, divFirst) == Some(f) <==> Becomes(e, f)
  {
    match e
    case Num(_) => case Var(_) => case Shl(_, _) =>
    case Add(a, b) => assert Strength(e) == None && DivRules(e) == None && SelfDivision(e) == None;
    case Mul(a, b) => assert DivRules(e) == None && SelfDivision(e) == None;
    case Div(a, b) => assert Strength(e) == None && Identities(e) == None;
  }

  /** Normal terms are exactly those without a reducible subterm. */
  lemma {:induction false} NormalBySubterms(e: Expr, divFirst: bool)
    ensures Normal(e, divFirst) <==> Irreducible(e)
  {
    RulesByShape(e, divFirst);
    if !Leaf(e) {
      NormalBySubterms(e.left, divFirst);
      NormalBySubterms(e.right, divFirst);
      if Irreducible(e) {
        forall s | Occurs(s, e.left) || Occurs(s, e.right) ensures !Reducible(s) {
          assert Occurs(s, e);
        }
      }
    }
    assert Occurs(e, e);
  }

  /** f comes from e by rewriting one subterm as its shape says. */
  ghost predicate Steps(e: Expr, f: Expr) {
    || Becomes(e, f)
    || (&& !Leaf(e) && !Leaf(f) && f == Rebuilt(e, f.left, f.right)
        && ((Steps(e.left, f.left) && e.right == f.right) || (e.left == f.left && Steps(e.right, f.right))))
  }

  lemma {:induction false} FiresBySteps(e: Expr, f: Expr, divFirst: bool)
    ensures Fires(e, f, divFirst) <==> Steps(e, f)
  {
    RulesByShape(e, divFirst);
    if !Leaf(e) && !Leaf(f) {
      FiresBySteps(e.left, f.left, divFirst);
      FiresBySteps(e.right, f.right, divFirst);
    }
  }

  /** n rewritten subterms lead from e to f. */
  ghost predicate Leads(e: Expr, f: Expr, n: nat)
    decreases n
  {
    if n == 0 then e == f else exists g :: Steps(e, g) && Leads(g, f, n - 1)
  }

  lemma {:induction false} LeadsOn(e: Expr, f: Expr, g: Expr, m: nat, n: nat)
    requires Leads(e, f, m) && Leads(f, g, n)
    ensures Leads(e, g, m + n)
    decreases m
  {
    if m > 0 {
      var h :| Steps(e, h) && Leads(h, f, m - 1);
      LeadsOn(h, f, g, m - 1, n);
    }
  }

  /** Rewriting an operand is rewriting the node. */
  lemma {:induction false} LeadsInside(e: Expr, x: Expr, y: Expr, n: nat)
    requires !Leaf(e)
    requires (Leads(e.left, x, n) && y == e.right) || (x == e.left && Leads(e.right, y, n))
    ensures Leads(e, Rebuilt(e, x, y), n)
    decreases n
  {
    if n > 0 {
      if Leads(e.left, x, n) && y == e.right {
        var g :| Steps(e.left, g) && Leads(g, x, n - 1);
        assert Steps(e, Rebuilt(e, g, y));
        LeadsInside(Rebuilt(e, g, y), x, y, n - 1);
      } else {
        var g :| Steps(e.right, g) && Leads(g, y, n - 1);
        assert Steps(e, Rebuilt(e, x, g));
        LeadsInside(Rebuilt(e, x, g), x, y, n - 1);
      }
    }
  }

  lemma OperandsLead(e: Expr, x: Expr, i: nat, y: Expr, j: nat)
    requires !Leaf(e) && Leads(e.left, x, i) && Leads(e.right, y, j)
    ensures Leads(e, Rebuilt(e, x, y), i + j)
  {
    var half := Rebuilt(e, x, e.right);
    LeadsInside(e, x, e.right, i);
    LeadsInside(half, x, y, j);
    LeadsOn(e, half, Rebuilt(e, x, y), i, j);
  }

  /** What leads to the rebuilt node leads to what the rules make of it. */
  lemma NodeLeads(e: Expr, rebuilt: Expr, n: nat, divFirst: bool, result: (Expr, nat))
    requires Leads(e, rebuilt, n) && result == AtNode(rebuilt, n, divFirst)
    ensures Leads(e, result.0, result.1)
  {
    RulesByShape(rebuilt, divFirst);
    if TryRules(rebuilt, divFirst).Some? {
      var f := result.0;
      assert Steps(rebuilt, f) && Leads(f, f, 0);
      assert Leads(rebuilt, f, 1);
      LeadsOn(e, rebuilt, f, n, 1);
    }
  }

  lemma NodeOverOperands(e: Expr, left: (Expr, nat), right: (Expr, nat), divFirst: bool, result: (Expr, nat))
    requires !Leaf(e) && Leads(e.left, left.0, left.1) && Leads(e.right, right.0, right.1)
    requires result == AtNode(Rebuilt(e, left.0, right.0), left.1 + right.1, divFirst)
    ensures Leads(e, result.0, result.1)
  {
    OperandsLead(e, left.0, left.1, right.0, right.1);
    NodeLeads(e, Rebuilt(e, left.0, right.0), left.1 + right.1, divFirst, result);
  }

  /** What holds of leaves, and of a node when it holds of its operands, holds of every pass. */
  lemma {:induction false} PassInduction(e: Expr, divFirst: bool, good: (Expr, (Expr, nat)) -> bool)
    requires forall leaf: Expr | Leaf(leaf) :: good(leaf, AtNode(leaf, 0, divFirst))
    requires forall node: Expr, left: (Expr, nat), right: (Expr, nat) |
               !Leaf(node) && good(node.left, left) && good(node.right, right) ::
               good(node, WithOperands(node, left, right, divFirst))
    ensures good(e, Pass(e, divFirst))
  {
    if !Leaf(e) {
      PassInduction(e.left, divFirst, good);
      PassInduction(e.right, divFirst, good);
    }
  }

  /** A pass rewrites as many subterms as it counts. */
  lemma PassLeads(e: Expr, divFirst: bool)
    ensures Leads(e, Pass(e, divFirst).0, Pass(e, divFirst).1)
  {
    var good := (e: Expr, p: (Expr, nat)) => Leads(e, p.0, p.1);
    forall leaf: Expr | Leaf(leaf) ensures good(leaf, AtNode(leaf, 0, divFirst)) {
      NodeLeads(leaf, leaf, 0, divFirst, AtNode(leaf, 0, divFirst));
    }
    forall node: Expr, left: (Expr, nat), right: (Expr, nat) |
      !Leaf(node) && good(node.left, left) && good(node.right, right)
      ensures good(node, WithOperands(node, left, right, divFirst)) {
      NodeOverOperands(node, left, right, divFirst, WithOperands(node, left, right, divFirst));
    }
    PassInduction(e, divFirst, good);
  }

  // ---------------------------------------------------------------- the fixpoint loop

  /** A pass makes the term smaller if it fired anything, and otherwise finds it normal. */
  lemma {:induction false} PassDecreases(e: Expr, divFirst: bool)
    ensures var (r, n) := Pass(e, divFirst); if n == 0 then r == e && Normal(e, divFirst) else Smaller(r, e)
  {
    var rebuilt := e;
    if !Leaf(e) {
      PassDecreases(e.left, divFirst);
      PassDecreases(e.right, divFirst);
      var x, y := Pass(e.left, divFirst).0, Pass(e.right, divFirst).0;
      rebuilt := Rebuilt(e, x, y);
      ContextDecreases(e, e.left, e.right, x, y, rebuilt);
    }
    if TryRules(rebuilt, divFirst).Some? {
      RuleDecreases(rebuilt, divFirst);
      SmallerTransitive(TryRules(rebuilt, divFirst).value, rebuilt, e);
    }
  }

  /** What the loop returns. */
  function Optimized(e: Expr, divFirst: bool): Expr
    decreases Cost(e), Muls(e), Numerators(e)
  {
    var (r, n) := Pass(e, divFirst);
    PassDecreases(e, divFirst);
    if n == 0 then r else Optimized(r, divFirst)
  }

  /** The number of rules fired. */
  function Firings(e: Expr, divFirst: bool): nat
    decreases Cost(e), Muls(e), Numerators(e)
  {
    var (r, n) := Pass(e, divFirst);
    PassDecreases(e, divFirst);
    if n == 0 then 0 else n + Firings(r, divFirst)
  }

  /** What a loop that has come from e to r in so many steps keeps. */
  ghost predicate OnTheWay(e: Expr, r: Expr, steps: nat, divFirst: bool) {
    && Optimized(r, divFirst) == Optimized(e, divFirst)
    && steps + Firings(r, divFirst) == Firings(e, divFirst)
    && NoLarger(r, e) && Leads(e, r, steps)
  }

  lemma PassOn(e: Expr, r: Expr, steps: nat, divFirst: bool, next: Expr, fired: nat)
    requires OnTheWay(e, r, steps, divFirst) && Pass(r, divFirst) == (next, fired)
    ensures OnTheWay(e, next, steps + fired, divFirst)
    ensures if fired == 0 then next == r && Normal(r, divFirst) && Firings(r, divFirst) == 0 else Smaller(next, r)
  {
    PassDecreases(r, divFirst);
    PassLeads(r, divFirst);
    LeadsOn(e, r, next, steps, fired);
    if fired > 0 {
      SmallerTransitive(next, r, e);
    }
  }

  lemma Arrives(e: Expr, r: Expr, steps: nat, divFirst: bool)
    requires OnTheWay(e, r, steps, divFirst) && Pass(r, divFirst).1 == 0
    ensures r == Optimized(e, divFirst) && steps == Firings(e, divFirst) && Leads(e, r, steps) && NoLarger(r, e)
    ensures Normal(r, divFirst) && Irreducible(r)
  {
    PassDecreases(r, divFirst);
    NormalBySubterms(r, divFirst);
  }

  /** Passes until one fires nothing: as many rewritten subterms as are counted lead to a result
      without a reducible subterm, no larger than the term given. */
  method HandOptimizeOrdered(e: Expr, divFirst: bool) returns (r: Expr, steps: nat)
    ensures r == Optimized(e, divFirst) && steps == Firings(e, divFirst)
    ensures Leads(e, r, steps) && Irreducible(r)
    ensures Normal(r, divFirst) && NoLarger(r, e)
  {
    r, steps := e, 0;
    while true
      invariant OnTheWay(e, r, steps, divFirst)
      decreases Cost(r), Muls(r), Numerators(r)
    {
      var before := steps;
      var (next, fired) := Pass(r, divFirst);
      PassOn(e, r, steps, divFirst, next, fired);
      r, steps := next, steps + fired;
      if steps == before {
        Arrives(e, r, steps, divFirst);
        return;
      }
    }
  }

  // ---------------------------------------------------------------- meaning

  /** The meaning of division and shifting, left open but for shifting by one. */
  datatype Machine = Machine(quotient: (int, int) -> int, shift: (int, int) -> int)

  ghost predicate Doubles(m: Machine) {
    forall x :: m.shift(x, 1) == 2 * x
  }

  function Eval(e: Expr, env: string -> int, m: Machine): int {
    match e
    case Num(n) => n
    case Var(v) => env(v)
    case Add(a, b) => Eval(a, env, m) + Eval(b, env, m)
    case Mul(a, b) => Eval(a, env, m) * Eval(b, env, m)
    case Div(a, b) => m.quotient(Eval(a, env, m), Eval(b, env, m))
    case Shl(a, b) => m.shift(Eval(a, env, m), Eval(b, env, m))
  }

  predicate DivFree(e: Expr) {
    match e
    case Num(_) => true
    case Var(_) => true
    case Add(a, b) => DivFree(a) && DivFree(b)
    case Mul(a, b) => DivFree(a) && DivFree(b)
    case Div(_, _) => false
    case Shl(a, b) => DivFree(a) && DivFree(b)
  }

  predicate MulFree(e: Expr) {
    Leaf(e) || (!e.Mul? && MulFree(e.left) && MulFree(e.right))
  }

  /** No product in a numerator, no divisor that is zero here, and division truncates. */
  ghost predicate Divides(e: Expr, env: string -> int, m: Machine) {
    Leaf(e) ||
    (&& Divides(e.left, env, m) && Divides(e.right, env, m)
     && (e.Div? ==>
           var x, y := Eval(e.left, env, m), Eval(e.right, env, m);
           MulFree(e.left) && y != 0 && m.quotient(x, y) == Quotient(x, y)))
  }

  /** What the rules keep of a term: its value here, and what makes them keep it. */
  ghost predicate Keeps(e: Expr, f: Expr, env: string -> int, m: Machine) {
    Divides(f, env, m) && Eval(f, env, m) == Eval(e, env, m) && (MulFree(e) ==> MulFree(f))
  }

  lemma QuotientFacts(x: int)
    ensures Quotient(x, 1) == x && (x != 0 ==> Quotient(x, x) == 1)
  {
  }

  lemma DivisionKeeps(e: Expr, divFirst: bool, env: string -> int, m: Machine)
    requires e.Div? && Divides(e, env, m) && TryRules(e, divFirst).Some?
    ensures Keeps(e, TryRules(e, divFirst).value, env, m)
  {
    QuotientFacts(Eval(e.left, env, m));
    assert !e.left.Mul?;
    assert Eval(Num(1), env, m) == 1;
  }

  lemma RuleKeeps(e: Expr, divFirst: bool, env: string -> int, m: Machine)
    requires Divides(e, env, m) && Doubles(m) && TryRules(e, divFirst).Some?
    ensures Keeps(e, TryRules(e, divFirst).value, env, m)
  {
    assert Eval(Num(1), env, m) == 1 && Eval(Num(2), env, m) == 2 && Eval(Num(0), env, m) == 0;
    if e.Div? {
      DivisionKeeps(e, divFirst, env, m);
    }
  }

  lemma RebuiltKeeps(e: Expr, x: Expr, y: Expr, env: string -> int, m: Machine)
    requires !Leaf(e) && Divides(e, env, m) && Keeps(e.left, x, env, m) && Keeps(e.right, y, env, m)
    ensures Keeps(e, Rebuilt(e, x, y), env, m)
  {
  }

  lemma KeepsOn(e: Expr, f: Expr, g: Expr, env: string -> int, m: Machine)
    requires Keeps(e, f, env, m) && Keeps(f, g, env, m)
    ensures Keeps(e, g, env, m)
  {
  }

  lemma {:induction false} PassKeeps(e: Expr, divFirst: bool, env: string -> int, m: Machine)
    requires Divides(e, env, m) && Doubles(m)
    ensures Keeps(e, Pass(e, divFirst).0, env, m)
  {
    var rebuilt := e;
    if !Leaf(e) {
      PassKeeps(e.left, divFirst, env, m);
      PassKeeps(e.right, divFirst, env, m);
      rebuilt := Rebuilt(e, Pass(e.left, divFirst).0, Pass(e.right, divFirst).0);
      RebuiltKeeps(e, Pass(e.left, divFirst).0, Pass(e.right, divFirst).0, env, m);
    }
    if TryRules(rebuilt, divFirst).Some? {
      RuleKeeps(rebuilt, divFirst, env, m);
      KeepsOn(e, rebuilt, TryRules(rebuilt, divFirst).value, env, m);
    }
  }

  /** Where no divisor is zero and division truncates, a term without products in its numerators
      has the same value once optimized. */
  lemma {:induction false} DivisionPreserved(e: Expr, divFirst: bool, env: string -> int, m: Machine)
    requires Divides(e, env, m) && Doubles(m)
    ensures Eval(Optimized(e, divFirst), env, m) == Eval(e, env, m)
    decreases Cost(e), Muls(e), Numerators(e)
  {
    PassKeeps(e, divFirst, env, m);
    PassDecreases(e, divFirst);
    if Pass(e, divFirst).1 != 0 {
      DivisionPreserved(Pass(e, divFirst).0, divFirst, env, m);
    }
  }

  lemma {:induction false} DivFreeDivides(e: Expr, env: string -> int, m: Machine)
    requires DivFree(e)
    ensures Divides(e, env, m)
  {
    if !Leaf(e) {
      DivFreeDivides(e.left, env, m);
      DivFreeDivides(e.right, env, m);
    }
  }

  /** Without division the optimized term has the same value in every environment. */
  lemma MeaningPreserved(e: Expr, divFirst: bool, env: string -> int, m: Machine)
    requires DivFree(e) && Doubles(m)
    ensures Eval(Optimized(e, divFirst), env, m) == Eval(e, env, m)
  {
    DivFreeDivides(e, env, m);
    DivisionPreserved(e, divFirst, env, m);
  }

  lemma HalfOfProduct(divFirst: bool)
    ensures Optimized(Div(Mul(Var("a"), Var("b")), Num(2)), divFirst) == Mul(Var("a"), Div(Var("b"), Num(2)))
  {
    var e, r := Div(Mul(Var("a"), Var("b")), Num(2)), Mul(Var("a"), Div(Var("b"), Num(2)));
    assert Pass(Mul(Var("a"), Var("b")), divFirst) == (Mul(Var("a"), Var("b")), 0);
    assert Pass(e, divFirst) == (r, 1);
    assert Pass(Div(Var("b"), Num(2)), divFirst) == (Div(Var("b"), Num(2)), 0);
    assert Pass(r, divFirst) == (r, 0);
    assert Optimized(r, divFirst) == r;
  }

  lemma HalfValues(env: string -> int, m: Machine)
    requires forall x :: m.quotient(x, 2) == Quotient(x, 2)
    requires env("a") == 2 && env("b") == 1
    ensures Eval(Div(Mul(Var("a"), Var("b")), Num(2)), env, m) == 1
    ensures Eval(Mul(Var("a"), Div(Var("b"), Num(2))), env, m) == 0
  {
    assert Eval(Div(Var("b"), Num(2)), env, m) == Quotient(1, 2) == 0;
    assert Eval(Mul(Var("a"), Var("b")), env, m) == 2 && Quotient(2, 2) == 1;
  }

  /** With division it need not: (a*b)/2 becomes a*(b/2), which drops the remainder of b. */
  lemma DivisionLosesMeaning(env: string -> int, m: Machine)
    requires forall x :: m.quotient(x, 2) == Quotient(x, 2)
    requires env("a") == 2 && env("b") == 1
    ensures var e := Div(Mul(Var("a"), Var("b")), Num(2));
            Eval(e, env, m) == 1 && Eval(Optimized(e, false), env, m) == 0
  {
    HalfOfProduct(false);
    HalfValues(env, m);
  }

  // ---------------------------------------------------------------- the order of the rules

  /** Moving the division rules to the front changes no rule's choice: they match quotients, and
      the rules they pass match sums and products. */
  lemma SameRules(e: Expr)
    ensures TryRules(e, true) == TryRules(e, false)
  {
    match e
    case Div(a, b) => assert Strength(e) == None && Identities(e) == None;
    case _ => assert DivRules(e) == None;
  }

  lemma SameAtNode(e: Expr, n: nat)
    ensures AtNode(e, n, true) == AtNode(e, n, false)
  {
    SameRules(e);
  }

  lemma {:induction false} SamePass(e: Expr)
    ensures Pass(e, true) == Pass(e, false)
  {
    if Leaf(e) {
      SameAtNode(e, 0);
    } else {
      SamePass(e.left);
      SamePass(e.right);
      var (x, i) := Pass(e.left, true);
      var (y, j) := Pass(e.right, true);
      SameAtNode(Rebuilt(e, x, y), i + j);
    }
  }

  /** Both orders give every term the same result with the same number of firings. */
  lemma {:induction false} OrderIsIrrelevant(e: Expr)
    ensures Optimized(e, true) == Optimized(e, false) && Firings(e, true) == Firings(e, false)
    decreases Cost(e), Muls(e), Numerators(e)
  {
    SamePass(e);
    PassDecreases(e, true);
    if Pass(e, true).1 != 0 {
      OrderIsIrrelevant(Pass(e, true).0);
    }
  }

  lemma TrapPasses(a: Expr, divFirst: bool)
    requires a.Var?
    ensures Pass(Div(Mul(a, Num(2)), Num(2)), divFirst) == (Div(Shl(a, Num(1)), Num(2)), 1)
  {
    assert Pass(a, divFirst) == (a, 0) && Pass(Num(2), divFirst) == (Num(2), 0);
    assert Pass(Mul(a, Num(2)), divFirst) == AtNode(Mul(a, Num(2)), 0, divFirst) == (Shl(a, Num(1)), 1);
  }

  lemma TrapRests(a: Expr, divFirst: bool)
    requires a.Var?
    ensures Pass(Div(Shl(a, Num(1)), Num(2)), divFirst) == (Div(Shl(a, Num(1)), Num(2)), 0)
  {
    assert Pass(a, divFirst) == (a, 0) && Pass(Num(1), divFirst) == (Num(1), 0)
      && Pass(Num(2), divFirst) == (Num(2), 0);
    assert Pass(Shl(a, Num(1)), divFirst) == (Shl(a, Num(1)), 0);
  }

  /** So (a*2)/2 is stuck at (a<<1)/2 in both orders: the product is rewritten before its parent
      is looked at. */
  lemma TrapInBothOrders(a: Expr, divFirst: bool)
    requires a.Var?
    ensures Optimized(Div(Mul(a, Num(2)), Num(2)), divFirst) == Div(Shl(a, Num(1)), Num(2))
  {
    TrapPasses(a, divFirst);
    TrapRests(a, divFirst);
    PassDecreases(Div(Mul(a, Num(2)), Num(2)), divFirst);
    var r := Div(Shl(a, Num(1)), Num(2));
    assert Optimized(r, divFirst) == r;
  }
}
