/// The x86 emitter that walks the tree directly (x86/code_gen.cpp). Each
/// visit appends lines to the output file and takes registers from, or
/// gives them back to, a pool of free registers. Only integer literals,
/// `+`, `return`, function bodies and the program frame produce code; every
/// other visit emits nothing and yields no register.
///
/// The pool's policy is not part of this model: which free register
/// `getRegister` hands out is a parameter `pick`, assumed only to return a
/// member of a non-empty pool.
module CodeGen {
  import opened Ast

  /// How the emitter crashes: a register operand that is null (the result
  /// of a visit that yields no register), or a request on an empty pool.
  datatype Fault = NullRegister | PoolExhausted

  /// What a visit does, from a given pool: the lines it appends, the pool
  /// it leaves, and its outcome (the register it yields, or its crash; the
  /// lines written before a crash stay in the file).
  datatype Gen<T> = Gen(lines: seq<string>, free: set<string>, outcome: Result<T, Fault>)

  /// `pick` hands out a member of any non-empty pool.
  ghost predicate PicksFromPool(pick: set<string> -> string)
  {
    forall pool: set<string> :: pool != {} ==> pick(pool) in pool
  }

  /// `getRegister`: takes the picked register out of the pool.
  function Take(pick: set<string> -> string, free: set<string>): (g: Gen<string>)
    ensures g.lines == []
    ensures g.outcome.Err? <==> free == {}
    ensures g.outcome.Err? ==> g.outcome.error == PoolExhausted && g.free == free
    ensures PicksFromPool(pick) && g.outcome.Ok? ==>
      g.outcome.value in free && g.free == free - {g.outcome.value}
  {
    if free == {} then Gen([], free, Err(PoolExhausted))
    else
      var r := pick(free);
      Gen([], free - {r}, Ok(r))
  }

  /// `freeRegister`: gives a register back to the pool (a null one changes nothing).
  function Release(free: set<string>, r: Option<string>): set<string>
  {
    free + Held(r)
  }

  /// The visits that yield a register: a primary and a binary expression.
  predicate YieldsRegister(e: Expr)
  {
    e.Primary? || e.Binary?
  }

  /// The visit of an expression, from the pool `free`.
  function GenExpr(pick: set<string> -> string, e: Expr, free: set<string>): Gen<Option<string>>
    decreases e
  {
    match e
    case Primary(tok, _) =>
      var t := Take(pick, free);
      if t.outcome.Err? then Gen([], free, Err(t.outcome.error))
      else
        var r := t.outcome.value;
        Gen(if tok.kind == IntLiteral then ["mov " + r + ", " + tok.value] else [], t.free, Ok(Some(r)))
    case Binary(e1, op, e2) =>
      var g1 := GenExpr(pick, e1, free);
      if g1.outcome.Err? then g1
      else
        var g2 := GenExpr(pick, e2, g1.free);
        if g2.outcome.Err? then Gen(g1.lines + g2.lines, g2.free, g2.outcome)
        else
          var c := GenOperator(pick, op, g1.outcome.value, g2.outcome.value, g2.free);
          Gen(g1.lines + g2.lines + c.lines, c.free, c.outcome)
    case _ => Gen([], free, Ok(None))
  }

  /// The rest of a binary visit once both operands yielded `r1` and `r2`:
  /// take the result register; only `+` writes code, and it dereferences
  /// both operands; give the operand registers back.
  function GenOperator(pick: set<string> -> string, op: Token, r1: Option<string>, r2: Option<string>,
                       free: set<string>): Gen<Option<string>>
  {
    var t := Take(pick, free);
    if t.outcome.Err? then Gen([], free, Err(t.outcome.error))
    else
      var r := t.outcome.value;
      if op.kind != Plus then Gen([], Release(Release(t.free, r1), r2), Ok(Some(r)))
      else if r1.None? then Gen([], t.free, Err(NullRegister))
      else if r2.None? then Gen(["mov " + r + ", " + r1.value], t.free, Err(NullRegister))
      else Gen(["mov " + r + ", " + r1.value, "add " + r + ", " + r2.value], Release(Release(t.free, r1), r2), Ok(Some(r)))
  }

  /// A visit whose register, if any, is dropped.
  function Discard(g: Gen<Option<string>>): Gen<()>
  {
    Gen(g.lines, g.free, if g.outcome.Err? then Err(g.outcome.error) else Ok(()))
  }

  /// The visits of statements in order, stopping at the first crash.
  function GenStmts(pick: set<string> -> string, ss: seq<Stmt>, free: set<string>): Gen<()>
    decreases ss, 0
  {
    if |ss| == 0 then Gen([], free, Ok(()))
    else
      var g := GenStmts(pick, ss[..|ss| - 1], free);
      if g.outcome.Err? then g
      else
        var h := GenStmt(pick, ss[|ss| - 1], g.free);
        Gen(g.lines + h.lines, h.free, h.outcome)
  }

  /// The visit of one statement. An expression statement leaves its
  /// register taken; a nested block is visited in place; `return` moves its
  /// value into `rax`, gives the register back, and returns.
  function GenStmt(pick: set<string> -> string, s: Stmt, free: set<string>): Gen<()>
    decreases s, 1
  {
    match s
    case ExprStmt(e) => Discard(GenExpr(pick, e, free))
    case Nested(b) => GenStmts(pick, b.stmts, free)
    case Return(value, _) =>
      (match value
       case None => Gen(["ret"], free, Ok(()))
       case Some(e) =>
         var g := GenExpr(pick, e, free);
         if g.outcome.Err? then Discard(g)
         else if g.outcome.value.None? then Gen(g.lines, g.free, Err(NullRegister))
         else
           var r := g.outcome.value.value;
           Gen(g.lines + ["mov rax, " + r, "ret"], Release(g.free, Some(r)), Ok(())))
    case _ => Gen([], free, Ok(()))
  }

  /// The visit of a top-level declaration: a function definition is its
  /// label line followed by its body; the other declarations emit nothing.
  function GenDecl(pick: set<string> -> string, d: Decl, free: set<string>): Gen<()>
  {
    match d
    case FuncD(f) =>
      var g := GenStmts(pick, f.block.stmts, free);
      Gen([f.name + ":"] + g.lines, g.free, g.outcome)
    case _ => Gen([], free, Ok(()))
  }

  /// The visits of the declarations in order, stopping at the first crash.
  function GenDecls(pick: set<string> -> string, ds: seq<Decl>, free: set<string>): Gen<()>
  {
    if |ds| == 0 then Gen([], free, Ok(()))
    else
      var g := GenDecls(pick, ds[..|ds| - 1], free);
      if g.outcome.Err? then g
      else
        var h := GenDecl(pick, ds[|ds| - 1], g.free);
        Gen(g.lines + h.lines, h.free, h.outcome)
  }

  /// The two lines that open the assembly file.
  const Header: seq<string> := ["section .text", "global start"]

  /// The entry point: calls `main` and exits with its result.
  const Trampoline: seq<string> := ["start:", "call main", "mov rdi, rax", "mov rax, 0x2000001", "syscall"]

  /// The visit of the program: header, declarations, then the entry point.
  function GenProgram(pick: set<string> -> string, p: Program, free: set<string>): Gen<()>
  {
    var g := GenDecls(pick, p.decls, free);
    if g.outcome.Err? then Gen(Header + g.lines, g.free, g.outcome)
    else Gen(Header + g.lines + Trampoline, g.free, Ok(()))
  }

  // Properties of the register discipline.

  /// How many registers the visit of `e` holds when it finishes.
  function Holds(e: Expr): (n: nat)
    ensures n <= 1
  {
    if YieldsRegister(e) then 1 else 0
  }

  /// The fewest free registers with which the visit of `e` does not run dry:
  /// the first operand's need; the second operand's, plus the register the
  /// first holds; and one result register on top of both operands'.
  function Need(e: Expr): nat
  {
    match e
    case Primary(_, _) => 1
    case Binary(e1, _, e2) =>
      var a, b, c := Need(e1), Holds(e1) + Need(e2), Holds(e1) + Holds(e2) + 1;
      if a >= b && a >= c then a else if b >= c then b else c
    case _ => 0
  }

  /// No `+` has an operand that yields no register (at any depth).
  predicate NullSafe(e: Expr)
  {
    match e
    case Binary(e1, op, e2) =>
      NullSafe(e1) && NullSafe(e2) && (op.kind == Plus ==> YieldsRegister(e1) && YieldsRegister(e2))
    case _ => true
  }

  /// The register of a visit, as a set (empty when it yields none).
  function Held(r: Option<string>): set<string>
  {
    if r.Some? then {r.value} else {}
  }

  /// The operator step takes its result register from the pool, distinct
  /// from the operands' (which are held, so not in the pool), and gives the
  /// operands back; it completes exactly when the pool is not empty and,
  /// for `+`, both operands are registers.
  lemma OperatorBalance(pick: set<string> -> string, op: Token, r1: Option<string>, r2: Option<string>,
                        free: set<string>)
    requires PicksFromPool(pick)
    requires Held(r1) !! free && Held(r2) !! free
    ensures var c := GenOperator(pick, op, r1, r2, free);
      && c.free <= free + Held(r1) + Held(r2)
      && (c.outcome.Ok? <==> free != {} && (op.kind == Plus ==> r1.Some? && r2.Some?))
      && (op.kind != Plus ==> c.lines == [])
      && (c.outcome.Ok? ==>
            && c.outcome.value.Some? && c.outcome.value.value in free
            && c.free == (free + Held(r1) + Held(r2)) - {c.outcome.value.value})
  {
    var t := Take(pick, free);
    if t.outcome.Ok? {
      var r := t.outcome.value;
      assert r !in Held(r1) + Held(r2);
      assert (free - {r}) + Held(r1) + Held(r2) == (free + Held(r1) + Held(r2)) - {r};
    }
  }

  /// Every expression visit gives back all it takes except the register it
  /// yields: that register comes from the pool, and the pool is otherwise
  /// unchanged. Visits that yield no register are exactly those of the
  /// expressions without code; they emit nothing. Even a crashing visit
  /// only ever removes registers from the pool.
  lemma {:induction false} ExprPoolBalance(pick: set<string> -> string, e: Expr, free: set<string>)
    requires PicksFromPool(pick)
    ensures var g := GenExpr(pick, e, free);
      && g.free <= free
      && (g.outcome.Ok? ==> g.free == free - Held(g.outcome.value) && Held(g.outcome.value) <= free)
      && (g.outcome.Ok? ==> (g.outcome.value.Some? <==> YieldsRegister(e)))
      && (!YieldsRegister(e) ==> g == Gen([], free, Ok(None)))
    decreases e
  {
    match e
    case Primary(_, _) =>
    case Binary(e1, op, e2) =>
      ExprPoolBalance(pick, e1, free);
      var g1 := GenExpr(pick, e1, free);
      if g1.outcome.Ok? {
        ExprPoolBalance(pick, e2, g1.free);
        var g2 := GenExpr(pick, e2, g1.free);
        if g2.outcome.Ok? {
          var r1, r2 := g1.outcome.value, g2.outcome.value;
          OperatorBalance(pick, op, r1, r2, g2.free);
          assert g2.free + Held(r1) + Held(r2) == free;
        }
      }
    case _ =>
  }

  /// The visit of `e` completes exactly when no `+` meets a null operand
  /// and the pool holds at least `Need(e)` registers.
  lemma {:induction false} CompletesIff(pick: set<string> -> string, e: Expr, free: set<string>)
    requires PicksFromPool(pick)
    ensures GenExpr(pick, e, free).outcome.Ok? <==> NullSafe(e) && |free| >= Need(e)
    decreases e
  {
    match e
    case Primary(_, _) =>
    case Binary(e1, op, e2) =>
      CompletesIff(pick, e1, free);
      ExprPoolBalance(pick, e1, free);
      var g1 := GenExpr(pick, e1, free);
      if g1.outcome.Ok? {
        HeldCount(free, g1.outcome.value, Holds(e1));
        CompletesIff(pick, e2, g1.free);
        ExprPoolBalance(pick, e2, g1.free);
        var g2 := GenExpr(pick, e2, g1.free);
        if g2.outcome.Ok? {
          HeldCount(g1.free, g2.outcome.value, Holds(e2));
          OperatorBalance(pick, op, g1.outcome.value, g2.outcome.value, g2.free);
        }
      }
    case _ =>
  }

  /// Taking a held register out of the pool leaves one fewer.
  lemma HeldCount(free: set<string>, r: Option<string>, n: nat)
    requires Held(r) <= free && n == (if r.Some? then 1 else 0)
    ensures |free - Held(r)| == |free| - n
  {
  }

  /// A `+` of two register-yielding operands: three distinct registers from
  /// the pool; the operands' code first, then `mov r, r1` and `add r, r2`;
  /// the operand registers go back to the pool and `r` is yielded.
  lemma PlusEmission(pick: set<string> -> string, e1: Expr, op: Token, e2: Expr, free: set<string>)
    requires PicksFromPool(pick) && op.kind == Plus
    requires GenExpr(pick, Binary(e1, op, e2), free).outcome.Ok?
    ensures var g1 := GenExpr(pick, e1, free);
      var g2 := GenExpr(pick, e2, g1.free);
      var g := GenExpr(pick, Binary(e1, op, e2), free);
      && g1.outcome.Ok? && g1.outcome.value.Some? && g2.outcome.Ok? && g2.outcome.value.Some?
      && g.outcome.value.Some?
      && var r, r1, r2 := g.outcome.value.value, g1.outcome.value.value, g2.outcome.value.value;
      && r1 in free && r2 in free && r in free
      && r1 != r2 && r != r1 && r != r2
      && g.lines == g1.lines + g2.lines + ["mov " + r + ", " + r1, "add " + r + ", " + r2]
      && g.free == free - {r}
  {
    ExprPoolBalance(pick, e1, free);
    var g1 := GenExpr(pick, e1, free);
    ExprPoolBalance(pick, e2, g1.free);
    var g2 := GenExpr(pick, e2, g1.free);
    OperatorBalance(pick, op, g1.outcome.value, g2.outcome.value, g2.free);
    ExprPoolBalance(pick, Binary(e1, op, e2), free);
  }

  /// A primary takes one register whatever its kind, and writes it only
  /// for an integer literal, as `mov r, value`; it fails only on an empty pool.
  lemma PrimaryEmission(pick: set<string> -> string, tok: Token, sym: Option<nat>, free: set<string>)
    requires PicksFromPool(pick)
    ensures var g := GenExpr(pick, Primary(tok, sym), free);
      && (g.outcome.Ok? <==> free != {})
      && (g.outcome.Ok? ==>
            && g.outcome.value.Some? && g.outcome.value.value in free
            && g.free == free - {g.outcome.value.value}
            && g.lines == if tok.kind == IntLiteral then ["mov " + g.outcome.value.value + ", " + tok.value] else [])
      && (g.outcome.Err? ==> g.outcome.error == PoolExhausted && g.lines == [])
  {
  }

  /// `return` always ends with `ret` and leaves the pool as it found it;
  /// with a value, the value's code comes first and its register is moved
  /// into `rax`; a value that yields no register crashes it.
  lemma ReturnEmission(pick: set<string> -> string, value: Option<Expr>, fd: Option<nat>, free: set<string>)
    requires PicksFromPool(pick)
    ensures var g := GenStmt(pick, Return(value, fd), free);
      && (g.outcome.Ok? ==> |g.lines| > 0 && g.lines[|g.lines| - 1] == "ret" && g.free == free)
      && (value.None? ==> g.lines == ["ret"] && g.outcome.Ok?)
      && (value.Some? && !YieldsRegister(value.value) ==> g.outcome == Err(NullRegister))
      && (value.Some? && g.outcome.Ok? ==>
            var ge := GenExpr(pick, value.value, free);
            ge.outcome.Ok? && ge.outcome.value.Some?
            && g.lines == ge.lines + ["mov rax, " + ge.outcome.value.value, "ret"])
  {
    if value.Some? {
      ExprPoolBalance(pick, value.value, free);
    }
  }

  /// Conditionals, loops, `break`, `continue` and local declarations emit
  /// nothing and leave the pool and the outcome as they were.
  lemma SilentStmts(pick: set<string> -> string, s: Stmt, free: set<string>)
    requires s.If? || s.While? || s.Break? || s.Continue? || s.LocalVar?
    ensures GenStmt(pick, s, free) == Gen([], free, Ok(()))
  {
  }

  /// Statements only ever take registers out of the pool: what an
  /// expression statement yields is never given back.
  lemma {:induction false} StmtPoolShrinks(pick: set<string> -> string, s: Stmt, free: set<string>)
    requires PicksFromPool(pick)
    ensures GenStmt(pick, s, free).free <= free
    decreases s, 1
  {
    match s
    case ExprStmt(e) => ExprPoolBalance(pick, e, free);
    case Nested(b) => StmtsPoolShrinks(pick, b.stmts, free);
    case Return(value, _) =>
      if value.Some? {
        ExprPoolBalance(pick, value.value, free);
      }
    case _ =>
  }

  lemma {:induction false} StmtsPoolShrinks(pick: set<string> -> string, ss: seq<Stmt>, free: set<string>)
    requires PicksFromPool(pick)
    ensures GenStmts(pick, ss, free).free <= free
    decreases ss, 0
  {
    if |ss| > 0 {
      StmtsPoolShrinks(pick, ss[..|ss| - 1], free);
      var g := GenStmts(pick, ss[..|ss| - 1], free);
      if g.outcome.Ok? {
        StmtPoolShrinks(pick, ss[|ss| - 1], g.free);
      }
    }
  }

  /// The declarations emit nothing exactly when none is a function
  /// definition: each definition writes at least its label.
  lemma {:induction false} DeclsSilentIff(pick: set<string> -> string, ds: seq<Decl>, free: set<string>)
    ensures GenDecls(pick, ds, free).lines == [] <==> forall i :: 0 <= i < |ds| ==> !ds[i].FuncD?
    ensures GenDecls(pick, ds, free).outcome.Err? ==> GenDecls(pick, ds, free).lines != []
  {
    if |ds| > 0 {
      var front := ds[..|ds| - 1];
      DeclsSilentIff(pick, front, free);
      assert forall i :: 0 <= i < |front| ==> front[i] == ds[i];
    }
  }

  /// The assembly file: it opens with the header; when no visit crashes it
  /// closes with the entry-point trampoline, and in between are the
  /// declarations' lines in order, empty exactly when the program defines
  /// no function.
  lemma ProgramFraming(pick: set<string> -> string, p: Program, free: set<string>)
    ensures var g := GenProgram(pick, p, free);
      && |g.lines| >= 2 && g.lines[..2] == ["section .text", "global start"]
      && (g.outcome.Ok? ==>
            && |g.lines| >= 7
            && g.lines[|g.lines| - 5..] == ["start:", "call main", "mov rdi, rax", "mov rax, 0x2000001", "syscall"]
            && g.lines[2..|g.lines| - 5] == GenDecls(pick, p.decls, free).lines
            && (|g.lines| == 7 <==> forall i :: 0 <= i < |p.decls| ==> !p.decls[i].FuncD?))
  {
    DeclsSilentIff(pick, p.decls, free);
    var g := GenProgram(pick, p, free);
    var d := GenDecls(pick, p.decls, free);
    if d.outcome.Ok? {
      assert g.lines == Header + d.lines + Trampoline;
      assert g.lines[2..|g.lines| - 5] == d.lines;
    }
  }

  lemma AppendAssoc(a: seq<string>, b: seq<string>, c: seq<string>)
    ensures a + b + c == a + (b + c)
  {
  }

  lemma AppendAssoc3(a: seq<string>, b: seq<string>, c: seq<string>, d: seq<string>)
    ensures a + b + c + d == a + (b + c + d)
  {
  }

  /// The binary case of `GenExpr`, step by step.
  lemma BinaryUnfold(pick: set<string> -> string, e1: Expr, op: Token, e2: Expr, free: set<string>)
    ensures var g := GenExpr(pick, Binary(e1, op, e2), free);
      var g1 := GenExpr(pick, e1, free);
      var g2 := GenExpr(pick, e2, g1.free);
      && (g1.outcome.Err? ==> g == g1)
      && (g1.outcome.Ok? && g2.outcome.Err? ==> g == Gen(g1.lines + g2.lines, g2.free, g2.outcome))
      && (g1.outcome.Ok? && g2.outcome.Ok? ==>
            var c := GenOperator(pick, op, g1.outcome.value, g2.outcome.value, g2.free);
            g == Gen(g1.lines + g2.lines + c.lines, c.free, c.outcome))
  {
  }

  /// One more statement of a block.
  lemma StmtsSnoc(pick: set<string> -> string, ss: seq<Stmt>, i: nat, free: set<string>)
    requires i < |ss|
    ensures var g := GenStmts(pick, ss[..i], free);
      GenStmts(pick, ss[..i + 1], free) ==
        if g.outcome.Err? then g
        else var h := GenStmt(pick, ss[i], g.free); Gen(g.lines + h.lines, h.free, h.outcome)
  {
    assert ss[..i + 1][..i] == ss[..i];
  }

  /// Once a statement crashes, the rest of the block is not visited.
  lemma {:induction false} StmtsStopAtCrash(pick: set<string> -> string, ss: seq<Stmt>, k: nat, free: set<string>)
    requires k <= |ss| && GenStmts(pick, ss[..k], free).outcome.Err?
    ensures GenStmts(pick, ss, free) == GenStmts(pick, ss[..k], free)
    decreases |ss|
  {
    if k < |ss| {
      var front := ss[..|ss| - 1];
      assert front[..k] == ss[..k];
      StmtsStopAtCrash(pick, front, k, free);
    } else {
      assert ss[..k] == ss;
    }
  }

  /// One more declaration of the program.
  lemma DeclsSnoc(pick: set<string> -> string, ds: seq<Decl>, i: nat, free: set<string>)
    requires i < |ds|
    ensures var g := GenDecls(pick, ds[..i], free);
      GenDecls(pick, ds[..i + 1], free) ==
        if g.outcome.Err? then g
        else var h := GenDecl(pick, ds[i], g.free); Gen(g.lines + h.lines, h.free, h.outcome)
  {
    assert ds[..i + 1][..i] == ds[..i];
  }

  /// Once a declaration crashes, the rest of the program is not visited.
  lemma {:induction false} DeclsStopAtCrash(pick: set<string> -> string, ds: seq<Decl>, k: nat, free: set<string>)
    requires k <= |ds| && GenDecls(pick, ds[..k], free).outcome.Err?
    ensures GenDecls(pick, ds, free) == GenDecls(pick, ds[..k], free)
    decreases |ds|
  {
    if k < |ds| {
      var front := ds[..|ds| - 1];
      assert front[..k] == ds[..k];
      DeclsStopAtCrash(pick, front, k, free);
    } else {
      assert ds[..k] == ds;
    }
  }

  /// A completed statement visit has the one outcome `Ok(())`.
  lemma UnitOutcome(x: Result<(), Fault>)
    requires x.Ok?
    ensures x == Ok(())
  {
    match x.value { case () => }
  }

  /// The emitter: the output file as the lines appended so far, and the
  /// pool of free registers, both changed in place by the visits.
  class Generator {
    var output: seq<string>
    var free: set<string>
    const pick: set<string> -> string

    constructor (pool: set<string>, pick: set<string> -> string)
      ensures output == [] && free == pool && this.pick == pick
    {
      output := [];
      free := pool;
      this.pick := pick;
    }

    method Emit(line: string)
      modifies this
      ensures output == old(output) + [line] && free == old(free)
    {
      output := output + [line];
    }

    method GetRegister() returns (r: Result<string, Fault>)
      modifies this
      ensures var t := Take(pick, old(free)); r == t.outcome && free == t.free
      ensures output == old(output)
    {
      if free == {} {
        return Err(PoolExhausted);
      }
      var reg := pick(free);
      free := free - {reg};
      r := Ok(reg);
    }

    method FreeRegister(r: Option<string>)
      modifies this
      ensures free == Release(old(free), r) && output == old(output)
    {
      if r.Some? {
        free := free + {r.value};
      }
    }

    method VisitExpr(e: Expr) returns (r: Result<Option<string>, Fault>)
      modifies this
      ensures var g := GenExpr(pick, e, old(free));
        output == old(output) + g.lines && free == g.free && r == g.outcome
      decreases e, 1
    {
      match e
      case Primary(tok, _) =>
        r := VisitPrimary(tok);
      case Binary(e1, op, e2) =>
        r := VisitBinary(e1, op, e2);
      case _ =>
        r := Ok(None);
    }

    /// The visit of a binary expression: both operands, then the operator step.
    method VisitBinary(e1: Expr, op: Token, e2: Expr) returns (r: Result<Option<string>, Fault>)
      modifies this
      ensures var g := GenExpr(pick, Binary(e1, op, e2), old(free));
        output == old(output) + g.lines && free == g.free && r == g.outcome
      decreases Binary(e1, op, e2), 0
    {
      ghost var g := GenExpr(pick, Binary(e1, op, e2), old(free));
      ghost var g1 := GenExpr(pick, e1, old(free));
      ghost var g2 := GenExpr(pick, e2, g1.free);
      BinaryUnfold(pick, e1, op, e2, old(free));
      ghost var out0 := output;
      var r1 := VisitExpr(e1);
      if r1.Err? {
        return r1;
      }
      ghost var out1 := output;
      var r2 := VisitExpr(e2);
      if r2.Err? {
        AppendAssoc(out0, g1.lines, g2.lines);
        return r2;
      }
      ghost var c := GenOperator(pick, op, r1.value, r2.value, g2.free);
      r := Operator(op, r1.value, r2.value);
      AppendAssoc3(out0, g1.lines, g2.lines, c.lines);
    }

    /// The visit of a primary expression.
    method VisitPrimary(tok: Token) returns (r: Result<Option<string>, Fault>)
      modifies this
      ensures forall sym :: var g := GenExpr(pick, Primary(tok, sym), old(free));
        output == old(output) + g.lines && free == g.free && r == g.outcome
    {
      var t := GetRegister();
      if t.Err? {
        return Err(t.error);
      }
      if tok.kind == IntLiteral {
        Emit("mov " + t.value + ", " + tok.value);
      }
      r := Ok(Some(t.value));
    }

    /// The operator step of a binary visit.
    method Operator(op: Token, r1: Option<string>, r2: Option<string>) returns (r: Result<Option<string>, Fault>)
      modifies this
      ensures var c := GenOperator(pick, op, r1, r2, old(free));
        output == old(output) + c.lines && free == c.free && r == c.outcome
    {
      var t := GetRegister();
      if t.Err? {
        return Err(t.error);
      }
      if op.kind == Plus {
        if r1.None? {
          return Err(NullRegister);
        }
        Emit("mov " + t.value + ", " + r1.value);
        if r2.None? {
          return Err(NullRegister);
        }
        Emit("add " + t.value + ", " + r2.value);
      }
      FreeRegister(r1);
      FreeRegister(r2);
      r := Ok(Some(t.value));
    }

    method VisitStmt(s: Stmt) returns (r: Result<(), Fault>)
      modifies this
      ensures var g := GenStmt(pick, s, old(free));
        output == old(output) + g.lines && free == g.free && r == g.outcome
      decreases s, 1
    {
      match s
      case ExprStmt(e) =>
        var reg := VisitExpr(e);
        r := if reg.Err? then Err(reg.error) else Ok(());
      case Nested(b) =>
        r := VisitBlock(b.stmts);
      case Return(value, _) =>
        if value.Some? {
          var reg := VisitExpr(value.value);
          if reg.Err? {
            return Err(reg.error);
          }
          if reg.value.None? {
            return Err(NullRegister);
          }
          Emit("mov rax, " + reg.value.value);
          FreeRegister(reg.value);
        }
        Emit("ret");
        r := Ok(());
      case _ =>
        r := Ok(());
    }

    /// The visit of a block: its statements in order.
    method VisitBlock(ss: seq<Stmt>) returns (r: Result<(), Fault>)
      modifies this
      ensures var g := GenStmts(pick, ss, old(free));
        output == old(output) + g.lines && free == g.free && r == g.outcome
      decreases ss, 0
    {
      for i := 0 to |ss|
        invariant var g := GenStmts(pick, ss[..i], old(free));
          output == old(output) + g.lines && free == g.free && g.outcome == Ok(())
      {
        StmtsSnoc(pick, ss, i, old(free));
        ghost var g := GenStmts(pick, ss[..i], old(free));
        ghost var h := GenStmt(pick, ss[i], g.free);
        r := VisitStmt(ss[i]);
        AppendAssoc(old(output), g.lines, h.lines);
        if r.Err? {
          StmtsStopAtCrash(pick, ss, i + 1, old(free));
          return;
        }
        UnitOutcome(h.outcome);
      }
      assert ss[..|ss|] == ss;
      r := Ok(());
    }

    method VisitDecl(d: Decl) returns (r: Result<(), Fault>)
      modifies this
      ensures var g := GenDecl(pick, d, old(free));
        output == old(output) + g.lines && free == g.free && r == g.outcome
    {
      match d
      case FuncD(f) =>
        Emit(f.name + ":");
        r := VisitBlock(f.block.stmts);
      case _ =>
        r := Ok(());
    }

    method VisitProgram(p: Program) returns (r: Result<(), Fault>)
      modifies this
      ensures var g := GenProgram(pick, p, old(free));
        output == old(output) + g.lines && free == g.free && r == g.outcome
    {
      Emit("section .text");
      Emit("global start");
      assert output == old(output) + Header;
      for i := 0 to |p.decls|
        invariant var g := GenDecls(pick, p.decls[..i], old(free));
          output == old(output) + Header + g.lines && free == g.free && g.outcome == Ok(())
      {
        DeclsSnoc(pick, p.decls, i, old(free));
        ghost var g := GenDecls(pick, p.decls[..i], old(free));
        ghost var h := GenDecl(pick, p.decls[i], g.free);
        r := VisitDecl(p.decls[i]);
        AppendAssoc(old(output) + Header, g.lines, h.lines);
        if r.Err? {
          DeclsStopAtCrash(pick, p.decls, i + 1, old(free));
          AppendAssoc(old(output), Header, GenDecls(pick, p.decls, old(free)).lines);
          return;
        }
        UnitOutcome(h.outcome);
      }
      assert p.decls[..|p.decls|] == p.decls;
      ghost var body := output;
      Emit("start:");
      Emit("call main");
      Emit("mov rdi, rax");
      Emit("mov rax, 0x2000001");
      Emit("syscall");
      assert output == body + Trampoline;
      AppendAssoc3(old(output), Header, GenDecls(pick, p.decls, old(free)).lines, Trampoline);
      r := Ok(());
    }
  }
}
