/// Name analysis (semantic/name_analysis.cpp): a stack of scopes, each a map
/// from names to symbols, innermost last. The analysis binds every use of a
/// name to its innermost declaration, rejects redeclarations in one scope
/// and undeclared uses, reconciles a function definition with an earlier
/// prototype, sizes types (int and char are 8 bytes here) and lays out
/// struct fields.
///
/// Symbols live in an arena (`symbols`); scopes and AST nodes hold handles
/// into it. Upgrading a prototype to a definition rewrites its arena entry,
/// so every earlier use that resolved to the prototype sees the definition,
/// as the shared symbol object does in the C++.
module NameAnalysis {
  import opened Ast
  import Layout

  /// A declaration as the symbol table sees it. The constructor is the
  /// symbol's kind (VAR, FUNC, PROTO, STRUCT).
  datatype Symbol =
    | VarSym(varDecl: VarDecl)
    | FuncSym(funcDecl: FuncDecl)
    | ProtoSym(funProto: FunProto)
    | StructSym(structDecl: StructDecl)

  /// One scope: names to symbol handles.
  type Scope = map<string, nat>

  /// The semantic exceptions of the pass, each with the token it carries
  /// (the struct redeclaration carries none), and the layout's `% 0`.
  datatype SemanticError =
    | Redeclared(token: Token)
    | ProtoRedeclared(token: Token)
    | StructRedeclared(name: string)
    | ConflictingReturnType(token: Token)
    | ConflictingArgCount(token: Token)
    | ConflictingArgType(token: Token, argName: string)
    | UndeclaredFunction(token: Token)
    | UndeclaredVariable(token: Token)
    | UndeclaredStruct(token: Token)
    | LayoutFault(fault: Layout.Fault)

  /// The key under which a struct tag is stored, apart from ordinary names.
  function StructKey(name: string): string
  {
    name + "$struct"
  }

  // ----- The scope stack -----

  /// `get`: the binding of `name` in the innermost scope that has one.
  function Lookup(scopes: seq<Scope>, name: string): Option<nat>
    decreases |scopes|
  {
    if |scopes| == 0 then None
    else if name in scopes[|scopes| - 1] then Some(scopes[|scopes| - 1][name])
    else Lookup(scopes[..|scopes| - 1], name)
  }

  /// Scope `i` binds `name` and no scope inside it does.
  ghost predicate Innermost(scopes: seq<Scope>, name: string, i: int)
  {
    0 <= i < |scopes| && name in scopes[i] && forall j :: i < j < |scopes| ==> name !in scopes[j]
  }

  /// `get` finds nothing exactly when no scope binds the name, and otherwise
  /// returns the binding of the innermost scope that binds it.
  lemma {:induction false} LookupIsInnermost(scopes: seq<Scope>, name: string)
    ensures Lookup(scopes, name).None? <==> forall i :: 0 <= i < |scopes| ==> name !in scopes[i]
    ensures forall i :: Innermost(scopes, name, i) ==> Lookup(scopes, name) == Some(scopes[i][name])
    decreases |scopes|
  {
    if |scopes| > 0 {
      var outer := scopes[..|scopes| - 1];
      LookupIsInnermost(outer, name);
      forall i | Innermost(scopes, name, i)
        ensures Lookup(scopes, name) == Some(scopes[i][name])
      {
        if i < |scopes| - 1 {
          assert Innermost(outer, name, i);
        }
      }
    }
  }

  /// `put`: `scopes` with `name` bound to `h` in the innermost scope.
  function Bind(scopes: seq<Scope>, name: string, h: nat): (r: seq<Scope>)
    requires |scopes| > 0
    ensures |r| == |scopes|
  {
    scopes[..|scopes| - 1] + [scopes[|scopes| - 1][name := h]]
  }

  /// After `put`, `get` of that name returns the new binding (it shadows
  /// any outer one), `get` of any other name is unaffected, and the outer
  /// scopes are untouched.
  lemma LookupAfterBind(scopes: seq<Scope>, name: string, h: nat, other: string)
    requires |scopes| > 0
    ensures Lookup(Bind(scopes, name, h), name) == Some(h)
    ensures other != name ==> Lookup(Bind(scopes, name, h), other) == Lookup(scopes, other)
    ensures Bind(scopes, name, h)[..|scopes| - 1] == scopes[..|scopes| - 1]
  {
    var b := Bind(scopes, name, h);
    assert b[..|b| - 1] == scopes[..|scopes| - 1];
  }

  // ----- Types -----

  /// Type equality as the prototype check uses it: structural on the token
  /// kind, the name, the pointer count and the array dimensions.
  function SameType(a: Type, b: Type): bool
  {
    a.token.kind == b.token.kind && a.name == b.name
    && a.pointerCount == b.pointerCount && a.arraySize == b.arraySize
  }

  /// The size table of this pass: int 8, char 8, void 0, a struct the size
  /// of its declaration, and any pointer 8; other kinds keep their size.
  function SizeOf(kind: TokenKind, pointerCount: nat, structSize: nat, previous: nat): nat
  {
    if pointerCount > 0 then 8
    else match kind
      case IntKw => 8
      case CharKw => 8
      case VoidKw => 0
      case StructKw => structSize
      case _ => previous
  }

  lemma SizeTable(kind: TokenKind, pointerCount: nat, structSize: nat, previous: nat)
    ensures pointerCount > 0 ==> SizeOf(kind, pointerCount, structSize, previous) == 8
    ensures pointerCount == 0 && kind.IntKw? ==> SizeOf(kind, pointerCount, structSize, previous) == 8
    ensures pointerCount == 0 && kind.CharKw? ==> SizeOf(kind, pointerCount, structSize, previous) == 8
    ensures pointerCount == 0 && kind.VoidKw? ==> SizeOf(kind, pointerCount, structSize, previous) == 0
    ensures pointerCount == 0 && kind.StructKw? ==> SizeOf(kind, pointerCount, structSize, previous) == structSize
  {
  }

  /// The struct symbol stored under the tag's key in the outermost (global)
  /// scope, if any.
  function GlobalStructTag(scopes: seq<Scope>, symbols: seq<Symbol>, name: string): (r: Option<nat>)
    requires |scopes| > 0
    ensures r.Some? ==> r.value < |symbols| && symbols[r.value].StructSym?
  {
    var key := StructKey(name);
    if key in scopes[0] && scopes[0][key] < |symbols| && symbols[scopes[0][key]].StructSym?
    then Some(scopes[0][key]) else None
  }

  /// Resolving and sizing a type: a struct type must name a struct declared
  /// in the global scope and takes that struct's size.
  function ResolveType(scopes: seq<Scope>, symbols: seq<Symbol>, t: Type): Result<Type, SemanticError>
    requires |scopes| > 0
  {
    if t.token.kind == StructKw then
      (match GlobalStructTag(scopes, symbols, t.name)
       case None => Err(UndeclaredStruct(t.token))
       case Some(h) =>
        Ok(t.(symbol := Some(h), size := SizeOf(StructKw, t.pointerCount, symbols[h].structDecl.size, t.size))))
    else
      Ok(t.(size := SizeOf(t.token.kind, t.pointerCount, 0, t.size)))
  }

  /// A type resolves unless it is a struct type whose tag is not declared
  /// globally, which is an error carrying the type's token; a resolved type
  /// keeps everything but its symbol and size, and its size follows the table.
  lemma ResolveTypeMeaning(scopes: seq<Scope>, symbols: seq<Symbol>, t: Type)
    requires |scopes| > 0
    ensures ResolveType(scopes, symbols, t).Err? <==>
      t.token.kind == StructKw && GlobalStructTag(scopes, symbols, t.name).None?
    ensures ResolveType(scopes, symbols, t).Err? ==>
      ResolveType(scopes, symbols, t).error == UndeclaredStruct(t.token)
    ensures ResolveType(scopes, symbols, t).Ok? ==>
      var t' := ResolveType(scopes, symbols, t).value;
      && t'.token == t.token && t'.name == t.name && t'.pointerCount == t.pointerCount && t'.arraySize == t.arraySize
      && (t.pointerCount > 0 ==> t'.size == 8)
      && (t.pointerCount == 0 && t.token.kind in {IntKw, CharKw} ==> t'.size == 8)
      && (t.pointerCount == 0 && t.token.kind == VoidKw ==> t'.size == 0)
      && (t.token.kind == StructKw ==> t'.symbol == GlobalStructTag(scopes, symbols, t.name))
      && (t.token.kind == StructKw && t.pointerCount == 0 ==>
            t'.size == symbols[t'.symbol.value].structDecl.size)
  {
  }

  // ----- Expressions -----

  /// Resolving an expression against the scope stack: every identifier and
  /// every called name must be bound; the first unbound one, in evaluation
  /// order, is the error. The called name is checked before the arguments.
  function ResolveExpr(scopes: seq<Scope>, e: Expr): Result<Expr, SemanticError>
    decreases e, 1
  {
    match e
    case Primary(tok, _) =>
      if tok.kind == Identifier then
        (match Lookup(scopes, tok.value)
         case None => Err(UndeclaredVariable(tok))
         case Some(h) => Ok(Primary(tok, Some(h))))
      else Ok(e)
    case Call(id, args, _) =>
      (match Lookup(scopes, id.value)
       case None => Err(UndeclaredFunction(id))
       case Some(h) =>
        (match ResolveExprs(scopes, args)
         case Err(err) => Err(err)
         case Ok(args') => Ok(Call(id, args', Some(h)))))
    case Unary(op, e1) =>
      (match ResolveExpr(scopes, e1)
       case Err(err) => Err(err)
       case Ok(e1') => Ok(Unary(op, e1')))
    case Binary(e1, op, e2) =>
      (match ResolveExpr(scopes, e1)
       case Err(err) => Err(err)
       case Ok(e1') =>
        (match ResolveExpr(scopes, e2)
         case Err(err) => Err(err)
         case Ok(e2') => Ok(Binary(e1', op, e2'))))
    case Subscript(a, i) =>
      (match ResolveExpr(scopes, a)
       case Err(err) => Err(err)
       case Ok(a') =>
        (match ResolveExpr(scopes, i)
         case Err(err) => Err(err)
         case Ok(i') => Ok(Subscript(a', i'))))
    case Member(st, m) =>
      (match ResolveExpr(scopes, st)
       case Err(err) => Err(err)
       case Ok(st') => Ok(Member(st', m)))
    case TypeCast(t, e1) =>
      match ResolveExpr(scopes, e1)
      case Err(err) => Err(err)
      case Ok(e1') => Ok(TypeCast(t, e1'))
  }

  function ResolveExprs(scopes: seq<Scope>, es: seq<Expr>): Result<seq<Expr>, SemanticError>
    decreases es, 0
  {
    if |es| == 0 then Ok([])
    else
      match ResolveExpr(scopes, es[0])
      case Err(err) => Err(err)
      case Ok(e0) =>
        (match ResolveExprs(scopes, es[1..])
         case Err(err) => Err(err)
         case Ok(rest) => Ok([e0] + rest))
  }

  /// The tokens naming something an expression uses: identifier primaries
  /// and called functions (member names and cast types are not looked up).
  function NameTokens(e: Expr): set<Token>
    decreases e, 1
  {
    match e
    case Primary(tok, _) => if tok.kind == Identifier then {tok} else {}
    case Call(id, args, _) => {id} + NameTokensOf(args)
    case Unary(_, e1) => NameTokens(e1)
    case Binary(e1, _, e2) => NameTokens(e1) + NameTokens(e2)
    case Subscript(a, i) => NameTokens(a) + NameTokens(i)
    case Member(st, _) => NameTokens(st)
    case TypeCast(_, e1) => NameTokens(e1)
  }

  function NameTokensOf(es: seq<Expr>): set<Token>
    decreases es, 0
  {
    if |es| == 0 then {} else NameTokens(es[0]) + NameTokensOf(es[1..])
  }

  /// `e` with every resolved symbol removed.
  function Erase(e: Expr): Expr
    decreases e, 1
  {
    match e
    case Primary(tok, _) => Primary(tok, None)
    case Call(id, args, _) => Call(id, EraseAll(args), None)
    case Unary(op, e1) => Unary(op, Erase(e1))
    case Binary(e1, op, e2) => Binary(Erase(e1), op, Erase(e2))
    case Subscript(a, i) => Subscript(Erase(a), Erase(i))
    case Member(st, m) => Member(Erase(st), m)
    case TypeCast(t, e1) => TypeCast(t, Erase(e1))
  }

  function EraseAll(es: seq<Expr>): (r: seq<Expr>)
    ensures |r| == |es|
    decreases es, 0
  {
    if |es| == 0 then [] else [Erase(es[0])] + EraseAll(es[1..])
  }

  /// `t` without what resolution fills in: its symbol and its size.
  function EraseType(t: Type): Type
  {
    t.(symbol := None, size := 0)
  }

  /// `v` with its type erased.
  function EraseVar(v: VarDecl): VarDecl
  {
    v.(varType := EraseType(v.varType))
  }

  /// `s` without anything the pass fills in: the symbols of its expressions,
  /// the symbols and sizes of its declared types, and the function its
  /// `return` statements belong to.
  function EraseStmt(s: Stmt): Stmt
    decreases s
  {
    match s
    case ExprStmt(e) => ExprStmt(Erase(e))
    case LocalVar(v) => LocalVar(EraseVar(v))
    case Nested(b) => Nested(EraseBlock(b))
    case Return(value, _) => Return(if value.Some? then Some(Erase(value.value)) else None, None)
    case If(e, s1, s2) => If(Erase(e), EraseStmt(s1), if s2.Some? then Some(EraseStmt(s2.value)) else None)
    case While(e, body) => While(Erase(e), EraseStmt(body))
    case Break => Break
    case Continue => Continue
  }

  /// `b` with each of its statements erased.
  function EraseBlock(b: Block): Block
    decreases b
  {
    Block(seq(|b.stmts|, i requires 0 <= i < |b.stmts| => EraseStmt(b.stmts[i])), b.offset)
  }

  /// Every identifier primary and every call in `e` carries the symbol that
  /// `get` returns for its name.
  ghost predicate BoundIn(scopes: seq<Scope>, e: Expr)
    decreases e, 1
  {
    match e
    case Primary(tok, sym) => tok.kind == Identifier ==> sym == Lookup(scopes, tok.value)
    case Call(id, args, sym) => sym == Lookup(scopes, id.value) && AllBoundIn(scopes, args)
    case Unary(_, e1) => BoundIn(scopes, e1)
    case Binary(e1, _, e2) => BoundIn(scopes, e1) && BoundIn(scopes, e2)
    case Subscript(a, i) => BoundIn(scopes, a) && BoundIn(scopes, i)
    case Member(st, _) => BoundIn(scopes, st)
    case TypeCast(_, e1) => BoundIn(scopes, e1)
  }

  ghost predicate AllBoundIn(scopes: seq<Scope>, es: seq<Expr>)
    decreases es, 0
  {
    |es| > 0 ==> BoundIn(scopes, es[0]) && AllBoundIn(scopes, es[1..])
  }

  /// Resolution succeeds exactly when every name the expression uses is
  /// bound in some scope. On success the result differs from the input only
  /// in its symbols, and each use carries its innermost binding; on failure
  /// the error is an undeclared variable or function, carrying the token of
  /// a use whose name no scope binds.
  lemma {:induction false} ResolveExprMeaning(scopes: seq<Scope>, e: Expr)
    ensures ResolveExpr(scopes, e).Ok? <==> forall t :: t in NameTokens(e) ==> Lookup(scopes, t.value).Some?
    ensures ResolveExpr(scopes, e).Ok? ==>
      Erase(ResolveExpr(scopes, e).value) == Erase(e) && BoundIn(scopes, ResolveExpr(scopes, e).value)
    ensures ResolveExpr(scopes, e).Err? ==>
      var err := ResolveExpr(scopes, e).error;
      (err.UndeclaredVariable? || err.UndeclaredFunction?)
      && err.token in NameTokens(e) && Lookup(scopes, err.token.value).None?
    decreases e, 1
  {
    match e
    case Primary(tok, _) =>
    case Call(id, args, _) => ResolveExprsMeaning(scopes, args);
    case Unary(_, e1) => ResolveExprMeaning(scopes, e1);
    case Binary(e1, _, e2) => ResolveExprMeaning(scopes, e1); ResolveExprMeaning(scopes, e2);
    case Subscript(a, i) => ResolveExprMeaning(scopes, a); ResolveExprMeaning(scopes, i);
    case Member(st, _) => ResolveExprMeaning(scopes, st);
    case TypeCast(_, e1) => ResolveExprMeaning(scopes, e1);
  }

  lemma {:induction false} ResolveExprsMeaning(scopes: seq<Scope>, es: seq<Expr>)
    ensures ResolveExprs(scopes, es).Ok? <==> forall t :: t in NameTokensOf(es) ==> Lookup(scopes, t.value).Some?
    ensures ResolveExprs(scopes, es).Ok? ==>
      EraseAll(ResolveExprs(scopes, es).value) == EraseAll(es) && AllBoundIn(scopes, ResolveExprs(scopes, es).value)
    ensures ResolveExprs(scopes, es).Err? ==>
      var err := ResolveExprs(scopes, es).error;
      (err.UndeclaredVariable? || err.UndeclaredFunction?)
      && err.token in NameTokensOf(es) && Lookup(scopes, err.token.value).None?
    decreases es, 0
  {
    if |es| > 0 {
      ResolveExprMeaning(scopes, es[0]);
      ResolveExprsMeaning(scopes, es[1..]);
      if ResolveExprs(scopes, es).Ok? {
        var r := ResolveExprs(scopes, es).value;
        assert r[1..] == ResolveExprs(scopes, es[1..]).value;
      }
    }
  }

  // ----- Prototype reconciliation -----

  /// A definition agrees with a prototype: same return type, same number of
  /// arguments, and the same argument types position by position.
  ghost predicate SignatureMatches(p: FunProto, f: FuncDecl)
  {
    SameType(p.retType, f.retType) && |p.args| == |f.args|
    && forall i :: 0 <= i < |p.args| ==> SameType(f.args[i].varType, p.args[i].varType)
  }

  /// The first disagreement of a definition with a prototype, in the order
  /// of the checks: return type, argument count, then argument types.
  function SignatureConflict(p: FunProto, f: FuncDecl): Option<SemanticError>
  {
    if !SameType(p.retType, f.retType) then Some(ConflictingReturnType(f.retType.token))
    else if |p.args| != |f.args| then Some(ConflictingArgCount(f.retType.token))
    else ArgConflict(p, f, 0)
  }

  /// The first argument from `i` on whose type differs from the prototype's.
  function ArgConflict(p: FunProto, f: FuncDecl, i: nat): Option<SemanticError>
    requires |p.args| == |f.args| && i <= |f.args|
    decreases |f.args| - i
  {
    if i == |f.args| then None
    else if !SameType(f.args[i].varType, p.args[i].varType) then
      Some(ConflictingArgType(f.retType.token, f.args[i].name))
    else ArgConflict(p, f, i + 1)
  }

  /// The checks a definition undergoes against an earlier prototype, in
  /// the source's order: return type, then argument count, then each
  /// argument type; the first disagreement is the error.
  method CheckSignature(p: FunProto, f: FuncDecl) returns (e: Option<SemanticError>)
    ensures e.None? <==> SignatureMatches(p, f)
    ensures e.Some? ==>
      e.value.ConflictingReturnType? || e.value.ConflictingArgCount? || e.value.ConflictingArgType?
    ensures !SameType(p.retType, f.retType) ==> e == Some(ConflictingReturnType(f.retType.token))
    ensures SameType(p.retType, f.retType) && |p.args| != |f.args| ==>
      e == Some(ConflictingArgCount(f.retType.token))
    ensures e.Some? && e.value.ConflictingArgType? ==>
      exists i :: 0 <= i < |f.args| == |p.args|
        && !SameType(f.args[i].varType, p.args[i].varType)
        && (forall j :: 0 <= j < i ==> SameType(f.args[j].varType, p.args[j].varType))
        && e.value == ConflictingArgType(f.retType.token, f.args[i].name)
    ensures e == SignatureConflict(p, f)
  {
    if !SameType(p.retType, f.retType) {
      return Some(ConflictingReturnType(f.retType.token));
    }
    if |p.args| != |f.args| {
      return Some(ConflictingArgCount(f.retType.token));
    }
    for i := 0 to |p.args|
      invariant forall j :: 0 <= j < i ==> SameType(f.args[j].varType, p.args[j].varType)
      invariant ArgConflict(p, f, i) == ArgConflict(p, f, 0)
    {
      if !SameType(f.args[i].varType, p.args[i].varType) {
        return Some(ConflictingArgType(f.retType.token, f.args[i].name));
      }
    }
    return None;
  }

  /// The name a declaration binds in the scope it appears in.
  function DeclKey(d: Decl): string
  {
    match d
    case FuncD(f) => f.name
    case ProtoD(p) => p.name
    case StructD(s) => StructKey(s.name)
    case VarD(v) => v.name
  }

  /// The scope `inner` keeps every binding of `before`.
  ghost predicate Extends(inner: Scope, before: Scope)
  {
    forall n :: n in before ==> n in inner && inner[n] == before[n]
  }

  /// The program scope `inner` binds the keys of the first `n`
  /// declarations to distinct symbols; a key's symbol is a prototype
  /// exactly when its last declaration so far is a prototype.
  ghost predicate DeclaredIn(inner: Scope, symbols: seq<Symbol>, decls: seq<Decl>, n: nat)
    requires n <= |decls|
  {
    && (forall j :: 0 <= j < n ==> DeclKey(decls[j]) in inner && inner[DeclKey(decls[j])] < |symbols|)
    && (forall k1, k2 :: k1 in inner && k2 in inner && k1 != k2 ==> inner[k1] != inner[k2])
    && (forall j :: 0 <= j < n ==>
          (symbols[inner[DeclKey(decls[j])]].ProtoSym? <==>
            decls[j].ProtoD? && forall m :: j < m < n ==> DeclKey(decls[m]) != DeclKey(decls[j])))
  }

  /// Declaring one more top-level declaration, as the visit of a
  /// declaration does, keeps the program scope and the redeclaration rule.
  lemma DeclaredStep(decls: seq<Decl>, i: nat, inner: Scope, syms: seq<Symbol>,
                     inner': Scope, symbols: seq<Symbol>, prior: Option<nat>)
    requires i < |decls| && DeclaredIn(inner, syms, decls, i)
    requires forall a, b :: 0 <= a < b < i && DeclKey(decls[a]) == DeclKey(decls[b]) ==>
      decls[a].ProtoD? && decls[b].FuncD?
    requires forall k :: k in inner ==> inner[k] < |syms|
    requires prior == (if DeclKey(decls[i]) in inner then Some(inner[DeclKey(decls[i])]) else None)
    requires inner' == inner[DeclKey(decls[i]) := |syms|]
    requires |syms| < |symbols| && (symbols[|syms|].ProtoSym? <==> decls[i].ProtoD?)
    requires prior.Some? ==> decls[i].FuncD? && syms[prior.value].ProtoSym?
    requires prior.Some? ==> prior.value < |symbols| && !symbols[prior.value].ProtoSym?
    requires forall k :: 0 <= k < |syms| && Some(k) != prior ==> symbols[k] == syms[k]
    ensures DeclaredIn(inner', symbols, decls, i + 1)
    ensures forall a, b :: 0 <= a < b < i + 1 && DeclKey(decls[a]) == DeclKey(decls[b]) ==>
      decls[a].ProtoD? && decls[b].FuncD?
  {
    if DeclKey(decls[i]) in inner {
      RedeclaredStep(decls, i, inner, syms, inner', symbols, prior);
    } else {
      FreshStep(decls, i, inner, syms, inner', symbols);
    }
  }

  /// The step for a definition of a name a prototype declared.
  lemma RedeclaredStep(decls: seq<Decl>, i: nat, inner: Scope, syms: seq<Symbol>,
                        inner': Scope, symbols: seq<Symbol>, prior: Option<nat>)
    requires i < |decls| && DeclaredIn(inner, syms, decls, i) && DeclKey(decls[i]) in inner
    requires forall a, b :: 0 <= a < b < i && DeclKey(decls[a]) == DeclKey(decls[b]) ==>
      decls[a].ProtoD? && decls[b].FuncD?
    requires forall k :: k in inner ==> inner[k] < |syms|
    requires prior == (if DeclKey(decls[i]) in inner then Some(inner[DeclKey(decls[i])]) else None)
    requires inner' == inner[DeclKey(decls[i]) := |syms|]
    requires |syms| < |symbols| && (symbols[|syms|].ProtoSym? <==> decls[i].ProtoD?)
    requires prior.Some? ==> decls[i].FuncD? && syms[prior.value].ProtoSym?
    requires prior.Some? ==> prior.value < |symbols| && !symbols[prior.value].ProtoSym?
    requires forall k :: 0 <= k < |syms| && Some(k) != prior ==> symbols[k] == syms[k]
    ensures DeclaredIn(inner', symbols, decls, i + 1)
    ensures forall a, b :: 0 <= a < b < i + 1 && DeclKey(decls[a]) == DeclKey(decls[b]) ==>
      decls[a].ProtoD? && decls[b].FuncD?
  {
    var key := DeclKey(decls[i]);
    // An earlier declaration with this key was a prototype, the last one.
    forall a | 0 <= a < i && DeclKey(decls[a]) == key
      ensures decls[a].ProtoD? && forall m :: a < m < i ==> DeclKey(decls[m]) != key
    {
    }
    forall j | 0 <= j < i && DeclKey(decls[j]) != key
      ensures symbols[inner'[DeclKey(decls[j])]] == syms[inner[DeclKey(decls[j])]]
    {
      assert inner'[DeclKey(decls[j])] == inner[DeclKey(decls[j])] != inner[key];
    }
  }

  /// The step for a name the scope does not bind yet.
  lemma FreshStep(decls: seq<Decl>, i: nat, inner: Scope, syms: seq<Symbol>,
                inner': Scope, symbols: seq<Symbol>)
    requires i < |decls| && DeclaredIn(inner, syms, decls, i) && DeclKey(decls[i]) !in inner
    requires forall a, b :: 0 <= a < b < i && DeclKey(decls[a]) == DeclKey(decls[b]) ==>
      decls[a].ProtoD? && decls[b].FuncD?
    requires forall k :: k in inner ==> inner[k] < |syms|
    requires inner' == inner[DeclKey(decls[i]) := |syms|]
    requires |syms| < |symbols| && (symbols[|syms|].ProtoSym? <==> decls[i].ProtoD?)
    requires forall k :: 0 <= k < |syms| ==> symbols[k] == syms[k]
    ensures DeclaredIn(inner', symbols, decls, i + 1)
    ensures forall a, b :: 0 <= a < b < i + 1 && DeclKey(decls[a]) == DeclKey(decls[b]) ==>
      decls[a].ProtoD? && decls[b].FuncD?
  {
    var key := DeclKey(decls[i]);
    forall j | 0 <= j < i
      ensures DeclKey(decls[j]) != key
      ensures symbols[inner'[DeclKey(decls[j])]] == syms[inner[DeclKey(decls[j])]]
    {
    }
  }


  // ----- The pass as functions of the analysis state -----

  /// The analysis state: the scope stack, the symbol arena and the function
  /// whose body is being analysed (`currFunc`).
  datatype Env = Env(scopes: seq<Scope>, symbols: seq<Symbol>, currFunc: Option<nat>)

  /// Every handle in a scope names a symbol of the arena.
  ghost predicate WellFormed(env: Env)
  {
    forall i, n :: 0 <= i < |env.scopes| && n in env.scopes[i] ==> env.scopes[i][n] < |env.symbols|
  }

  /// `scopes.emplace_back()`: a new empty innermost scope.
  function Push(env: Env): Env
  {
    env.(scopes := env.scopes + [map[]])
  }

  /// `scopes.pop_back()`: the innermost scope is dropped.
  function Pop(env: Env): Env
    requires |env.scopes| > 0
  {
    env.(scopes := env.scopes[..|env.scopes| - 1])
  }

  /// `put` of a new symbol: `sym` is added to the arena and `name` bound to
  /// it in the innermost scope.
  function Declared(env: Env, name: string, sym: Symbol): Env
    requires |env.scopes| > 0
  {
    Env(Bind(env.scopes, name, |env.symbols|), env.symbols + [sym], env.currFunc)
  }

  /// `get_local`: the binding of `name` in the innermost scope, if any.
  function LocalBinding(env: Env, name: string): Option<nat>
    requires |env.scopes| > 0
  {
    var inner := env.scopes[|env.scopes| - 1];
    if name in inner then Some(inner[name]) else None
  }

  /// `env'` has the scopes of `env` except, perhaps, the innermost.
  ghost predicate SameOuter(env: Env, env': Env)
  {
    && |env'.scopes| == |env.scopes| > 0
    && env'.scopes[..|env.scopes| - 1] == env.scopes[..|env.scopes| - 1]
  }

  /// A step inside the current scope: the outer scopes are untouched, the
  /// innermost keeps its bindings, the arena only grows and the current
  /// function stays.
  ghost predicate Keeps(env: Env, env': Env)
  {
    && SameOuter(env, env')
    && Extends(env'.scopes[|env.scopes| - 1], env.scopes[|env.scopes| - 1])
    && env.symbols <= env'.symbols
    && env'.currFunc == env.currFunc
  }

  /// A step in a scope of its own: the scopes are as before, the arena only
  /// grows and the current function stays.
  ghost predicate Restores(env: Env, env': Env)
  {
    env'.scopes == env.scopes && env.symbols <= env'.symbols && env'.currFunc == env.currFunc
  }

  /// `visit(VarDecl)`: a name the innermost scope binds is a redeclaration;
  /// otherwise the type is resolved and the name bound to a new VAR symbol.
  function DeclareVar(env: Env, v: VarDecl): (r: Result<(VarDecl, Env), SemanticError>)
    requires |env.scopes| > 0
    ensures r.Ok? ==> Keeps(env, r.value.1)
  {
    if v.name in env.scopes[|env.scopes| - 1] then Err(Redeclared(v.varType.token))
    else
      match ResolveType(env.scopes, env.symbols, v.varType)
      case Err(err) => Err(err)
      case Ok(t) => Ok((v.(varType := t), Declared(env, v.name, VarSym(v.(varType := t)))))
  }

  /// The visit of a statement: its resolved form and the state after it,
  /// or the first semantic error.
  function ResolveStmt(env: Env, s: Stmt): (r: Result<(Stmt, Env), SemanticError>)
    requires |env.scopes| > 0
    ensures r.Ok? ==> Keeps(env, r.value.1)
    decreases s, 1
  {
    match s
    case ExprStmt(e) =>
      (match ResolveExpr(env.scopes, e)
       case Err(err) => Err(err)
       case Ok(e') => Ok((ExprStmt(e'), env)))
    case LocalVar(v) =>
      (match DeclareVar(env, v)
       case Err(err) => Err(err)
       case Ok((v', env')) => Ok((LocalVar(v'), env')))
    case Nested(b) =>
      (match ResolveBlock(env, b)
       case Err(err) => Err(err)
       case Ok((b', env')) => Ok((Nested(b'), env')))
    case Return(value, _) =>
      if value.None? then Ok((Return(None, env.currFunc), env))
      else
        (match ResolveExpr(env.scopes, value.value)
         case Err(err) => Err(err)
         case Ok(e') => Ok((Return(Some(e'), env.currFunc), env)))
    case If(e, s1, s2) =>
      (match ResolveExpr(env.scopes, e)
       case Err(err) => Err(err)
       case Ok(e') =>
        (match ResolveInScope(env, s1)
         case Err(err) => Err(err)
         case Ok((s1', env1)) =>
          if s2.None? then Ok((If(e', s1', None), env1))
          else
            (match ResolveInScope(env1, s2.value)
             case Err(err) => Err(err)
             case Ok((s2', env2)) => Ok((If(e', s1', Some(s2')), env2)))))
    case While(e, body) =>
      (match ResolveExpr(env.scopes, e)
       case Err(err) => Err(err)
       case Ok(e') =>
        (match ResolveInScope(env, body)
         case Err(err) => Err(err)
         case Ok((body', env')) => Ok((While(e', body'), env'))))
    case Break => Ok((s, env))
    case Continue => Ok((s, env))
  }

  /// A statement visited in a scope of its own, pushed before and popped after.
  function ResolveInScope(env: Env, s: Stmt): (r: Result<(Stmt, Env), SemanticError>)
    requires |env.scopes| > 0
    ensures r.Ok? ==> Restores(env, r.value.1)
    decreases s, 2
  {
    match ResolveStmt(Push(env), s)
    case Err(err) => Err(err)
    case Ok((s', env')) =>
      assert Push(env).scopes[..|env.scopes|] == env.scopes;
      Ok((s', Pop(env')))
  }

  /// Statements visited in order in the current scope, stopping at the
  /// first error.
  function ResolveStmts(env: Env, ss: seq<Stmt>): (r: Result<(seq<Stmt>, Env), SemanticError>)
    requires |env.scopes| > 0
    ensures r.Ok? ==> Keeps(env, r.value.1) && |r.value.0| == |ss|
    decreases ss, 0
  {
    if |ss| == 0 then Ok(([], env))
    else
      match ResolveStmts(env, ss[..|ss| - 1])
      case Err(err) => Err(err)
      case Ok((front, env1)) =>
        (match ResolveStmt(env1, ss[|ss| - 1])
         case Err(err) => Err(err)
         case Ok((s', env2)) => Ok((front + [s'], env2)))
  }

  /// `visit(Block)`: the statements in a scope of their own.
  function ResolveBlock(env: Env, b: Block): (r: Result<(Block, Env), SemanticError>)
    requires |env.scopes| > 0
    ensures r.Ok? ==> Restores(env, r.value.1)
    decreases b
  {
    match ResolveStmts(Push(env), b.stmts)
    case Err(err) => Err(err)
    case Ok((ss, env')) =>
      assert Push(env).scopes[..|env.scopes|] == env.scopes;
      Ok((Block(ss, b.offset), Pop(env')))
  }

  /// A list of variable declarations visited in order in the current
  /// scope; `markLocal` flags each as a local.
  function DeclareVars(env: Env, vs: seq<VarDecl>, markLocal: bool): (r: Result<(seq<VarDecl>, Env), SemanticError>)
    requires |env.scopes| > 0
    ensures r.Ok? ==> Keeps(env, r.value.1) && |r.value.0| == |vs|
  {
    if |vs| == 0 then Ok(([], env))
    else
      match DeclareVars(env, vs[..|vs| - 1], markLocal)
      case Err(err) => Err(err)
      case Ok((front, env1)) =>
        var v := vs[|vs| - 1];
        (match DeclareVar(env1, v.(isLocal := markLocal || v.isLocal))
         case Err(err) => Err(err)
         case Ok((v', env2)) => Ok((front + [v'], env2)))
  }

  /// Parameters (flagged local or not) and then statements, in one new
  /// scope popped afterwards.
  function ResolveScoped(env: Env, args: seq<VarDecl>, markLocal: bool, stmts: seq<Stmt>)
    : (r: Result<((seq<VarDecl>, seq<Stmt>), Env), SemanticError>)
    requires |env.scopes| > 0
    ensures r.Ok? ==> Restores(env, r.value.1) && |r.value.0.0| == |args| && |r.value.0.1| == |stmts|
  {
    match DeclareVars(Push(env), args, markLocal)
    case Err(err) => Err(err)
    case Ok((args', env1)) =>
      (match ResolveStmts(env1, stmts)
       case Err(err) => Err(err)
       case Ok((stmts', env2)) =>
         assert Push(env).scopes[..|env.scopes|] == env.scopes;
         Ok(((args', stmts'), Pop(env2))))
  }

  /// `visit(FuncDecl)`: a name the innermost scope binds must be a
  /// prototype with the same signature, whose symbol becomes this function;
  /// otherwise it is a redeclaration.
  function ResolveFunc(env: Env, f: FuncDecl): (r: Result<(FuncDecl, Env), SemanticError>)
    requires |env.scopes| > 0
    ensures r.Ok? ==> SameOuter(env, r.value.1)
  {
    var prior := LocalBinding(env, f.name);
    if prior.Some? && !(prior.value < |env.symbols| && env.symbols[prior.value].ProtoSym?) then
      Err(Redeclared(f.retType.token))
    else if prior.Some? && SignatureConflict(env.symbols[prior.value].funProto, f).Some? then
      Err(SignatureConflict(env.symbols[prior.value].funProto, f).value)
    else if prior.Some? then
      ResolveDefinition(env.(symbols := env.symbols[prior.value := FuncSym(f)]), f, prior)
    else
      ResolveDefinition(env, f, None)
  }

  /// The definition proper, once the prototype it completes (if any) is
  /// `prior`: the return type is resolved, the function bound to a new FUNC
  /// symbol and made current, and its parameters (flagged local) and body
  /// statements share one new scope. The symbols share the definition
  /// node, so both see its annotations.
  function ResolveDefinition(env: Env, f: FuncDecl, prior: Option<nat>): (r: Result<(FuncDecl, Env), SemanticError>)
    requires |env.scopes| > 0 && (prior.Some? ==> prior.value < |env.symbols|)
    ensures r.Ok? ==> SameOuter(env, r.value.1)
  {
    match ResolveType(env.scopes, env.symbols, f.retType)
    case Err(err) => Err(err)
    case Ok(t) =>
      var h := |env.symbols|;
      var env2 := Declared(env, f.name, FuncSym(f.(retType := t))).(currFunc := Some(h));
      (match ResolveScoped(env2, f.args, true, f.block.stmts)
       case Err(err) => Err(err)
       case Ok(((args, stmts), env3)) =>
         var f' := f.(retType := t, args := args, block := Block(stmts, f.block.offset));
         var symbols := env3.symbols[h := FuncSym(f')];
         Ok((f', env3.(symbols := if prior.Some? then symbols[prior.value := FuncSym(f')] else symbols))))
  }

  /// `visit(FunProto)`: the name must be new to the innermost scope; it is
  /// bound to a new PROTO symbol and the parameters get a scope of their own.
  function ResolveProto(env: Env, p: FunProto): (r: Result<(FunProto, Env), SemanticError>)
    requires |env.scopes| > 0
    ensures r.Ok? ==> SameOuter(env, r.value.1)
  {
    if LocalBinding(env, p.name).Some? then Err(ProtoRedeclared(p.retType.token))
    else
      var h := |env.symbols|;
      match ResolveScoped(Declared(env, p.name, ProtoSym(p)), p.args, false, [])
      case Err(err) => Err(err)
      case Ok(((args, _), env1)) =>
        var p' := p.(args := args);
        Ok((p', env1.(symbols := env1.symbols[h := ProtoSym(p')])))
  }

  /// A struct's fields in a scope of their own, then laid out.
  function ResolveFields(env: Env, fields: seq<VarDecl>): (r: Result<(Layout.Laid, Env), SemanticError>)
    requires |env.scopes| > 0
    ensures r.Ok? ==> Restores(env, r.value.1)
  {
    match ResolveScoped(env, fields, false, [])
    case Err(err) => Err(err)
    case Ok(((fs, _), env1)) =>
      (match Layout.LayoutOf(fs)
       case Err(_) => Err(LayoutFault(Layout.ModuloByZero))
       case Ok(laid) => Ok((laid, env1)))
  }

  /// `visit(StructDecl)`: the tag must not be visible in any scope; it is
  /// bound to a new STRUCT symbol, and the fields are visited and laid out.
  function ResolveStruct(env: Env, s: StructDecl): (r: Result<(StructDecl, Env), SemanticError>)
    requires |env.scopes| > 0
    ensures r.Ok? ==> SameOuter(env, r.value.1)
  {
    if Lookup(env.scopes, StructKey(s.name)).Some? then Err(StructRedeclared(s.name))
    else
      var h := |env.symbols|;
      match ResolveFields(Declared(env, StructKey(s.name), StructSym(s)), s.varDecls)
      case Err(err) => Err(err)
      case Ok((laid, env1)) =>
        var s' := s.(varDecls := laid.fields, size := laid.size);
        Ok((s', env1.(symbols := env1.symbols[h := StructSym(s')])))
  }

  /// The visit of a top-level declaration, by its kind.
  function ResolveDecl(env: Env, d: Decl): (r: Result<(Decl, Env), SemanticError>)
    requires |env.scopes| > 0
    ensures r.Ok? ==> SameOuter(env, r.value.1)
  {
    match d
    case FuncD(f) =>
      (match ResolveFunc(env, f)
       case Err(err) => Err(err)
       case Ok((f', env')) => Ok((FuncD(f'), env')))
    case ProtoD(p) =>
      (match ResolveProto(env, p)
       case Err(err) => Err(err)
       case Ok((p', env')) => Ok((ProtoD(p'), env')))
    case StructD(sd) =>
      (match ResolveStruct(env, sd)
       case Err(err) => Err(err)
       case Ok((sd', env')) => Ok((StructD(sd'), env')))
    case VarD(v) =>
      match DeclareVar(env, v)
      case Err(err) => Err(err)
      case Ok((v', env')) => Ok((VarD(v'), env'))
  }

  /// The declarations `ds` visited in order, stopping at the first error.
  function ResolveDecls(env: Env, ds: seq<Decl>): (r: Result<(seq<Decl>, Env), SemanticError>)
    requires |env.scopes| > 0
    ensures r.Ok? ==> SameOuter(env, r.value.1) && |r.value.0| == |ds|
  {
    if |ds| == 0 then Ok(([], env))
    else
      match ResolveDecls(env, ds[..|ds| - 1])
      case Err(err) => Err(err)
      case Ok((front, env1)) =>
        (match ResolveDecl(env1, ds[|ds| - 1])
         case Err(err) => Err(err)
         case Ok((d', env2)) => Ok((front + [d'], env2)))
  }

  /// One more statement: the list so far, then the statement in the state it left.
  lemma ResolveStmtsStep(env: Env, ss: seq<Stmt>, i: nat, out: seq<Stmt>, env1: Env)
    requires |env.scopes| > 0 && i < |ss| && ResolveStmts(env, ss[..i]) == Ok((out, env1))
    ensures |env1.scopes| > 0
    ensures ResolveStmts(env, ss[..i + 1]) ==
      match ResolveStmt(env1, ss[i])
      case Err(e) => Err(e)
      case Ok((s', env2)) => Ok((out + [s'], env2))
  {
    assert ss[..i + 1][..i] == ss[..i];
  }

  /// Resolution changes a statement only in what the erasure removes.
  lemma {:induction false} ResolveStmtErases(env: Env, s: Stmt)
    requires |env.scopes| > 0
    ensures ResolveStmt(env, s).Ok? ==> EraseStmt(ResolveStmt(env, s).value.0) == EraseStmt(s)
    decreases s, 1
  {
    match s
    case ExprStmt(e) => ResolveExprMeaning(env.scopes, e);
    case LocalVar(v) =>
    case Nested(b) => ResolveBlockErases(env, b);
    case Return(value, _) =>
      if value.Some? {
        ResolveExprMeaning(env.scopes, value.value);
      }
    case If(e, s1, s2) =>
      ResolveExprMeaning(env.scopes, e);
      ResolveInScopeErases(env, s1);
      if ResolveInScope(env, s1).Ok? && s2.Some? {
        ResolveInScopeErases(ResolveInScope(env, s1).value.1, s2.value);
      }
    case While(e, body) =>
      ResolveExprMeaning(env.scopes, e);
      ResolveInScopeErases(env, body);
    case Break =>
    case Continue =>
  }

  lemma {:induction false} ResolveInScopeErases(env: Env, s: Stmt)
    requires |env.scopes| > 0
    ensures ResolveInScope(env, s).Ok? ==> EraseStmt(ResolveInScope(env, s).value.0) == EraseStmt(s)
    decreases s, 2
  {
    ResolveStmtErases(Push(env), s);
  }

  lemma {:induction false} ResolveStmtsErase(env: Env, ss: seq<Stmt>)
    requires |env.scopes| > 0
    ensures ResolveStmts(env, ss).Ok? ==>
      forall i :: 0 <= i < |ss| ==> EraseStmt(ResolveStmts(env, ss).value.0[i]) == EraseStmt(ss[i])
    decreases ss, 0
  {
    if |ss| > 0 {
      var front := ResolveStmts(env, ss[..|ss| - 1]);
      ResolveStmtsErase(env, ss[..|ss| - 1]);
      if front.Ok? {
        ResolveStmtErases(front.value.1, ss[|ss| - 1]);
      }
    }
  }

  lemma {:induction false} ResolveBlockErases(env: Env, b: Block)
    requires |env.scopes| > 0
    ensures ResolveBlock(env, b).Ok? ==> EraseBlock(ResolveBlock(env, b).value.0) == EraseBlock(b)
    decreases b
  {
    ResolveStmtsErase(Push(env), b.stmts);
    if ResolveBlock(env, b).Ok? {
      assert EraseBlock(ResolveBlock(env, b).value.0).stmts == EraseBlock(b).stmts;
    }
  }

  /// The names a list of declarations binds.
  function Names(vs: seq<VarDecl>): set<string>
  {
    set i | 0 <= i < |vs| :: vs[i].name
  }

  /// One more declaration: the list so far, then the declaration in the state it left.
  lemma DeclareVarsStep(env: Env, vs: seq<VarDecl>, markLocal: bool, i: nat, out: seq<VarDecl>, env1: Env)
    requires |env.scopes| > 0 && i < |vs| && DeclareVars(env, vs[..i], markLocal) == Ok((out, env1))
    ensures |env1.scopes| > 0
    ensures DeclareVars(env, vs[..i + 1], markLocal) ==
      match DeclareVar(env1, vs[i].(isLocal := markLocal || vs[i].isLocal))
      case Err(e) => Err(e)
      case Ok((v', env2)) => Ok((out + [v'], env2))
  {
    assert vs[..i + 1][..i] == vs[..i];
  }

  /// `out` and `env'` are what declaring `vs` in `env` may produce: new,
  /// distinct names bound in the innermost scope to new VAR symbols in
  /// order, each declaration changed only in its type and local flag.
  ghost predicate DeclaresVars(env: Env, vs: seq<VarDecl>, markLocal: bool, out: seq<VarDecl>, env': Env)
    requires |env.scopes| > 0 && |env'.scopes| == |env.scopes|
  {
    && |out| == |vs|
    && BindsNames(env, vs, env')
    && (forall i :: 0 <= i < |vs| ==>
          out[i] == vs[i].(varType := out[i].varType, isLocal := markLocal || vs[i].isLocal))
    && |env'.symbols| == |env.symbols| + |vs|
    && (forall i :: 0 <= i < |vs| ==> env'.symbols[|env.symbols| + i] == VarSym(out[i]))
  }

  /// The names of `vs` are new and distinct, and `env'` binds them in the
  /// innermost scope, in order, to the handles after those of `env`.
  ghost predicate BindsNames(env: Env, vs: seq<VarDecl>, env': Env)
    requires |env.scopes| > 0 && |env'.scopes| == |env.scopes|
  {
    var n := |env.scopes|;
    var inner := env.scopes[n - 1];
    && (forall i :: 0 <= i < |vs| ==> vs[i].name !in inner)
    && (forall i, j :: 0 <= i < j < |vs| ==> vs[i].name != vs[j].name)
    && env'.scopes[n - 1].Keys == inner.Keys + Names(vs)
    && (forall i :: 0 <= i < |vs| ==> env'.scopes[n - 1][vs[i].name] == |env.symbols| + i)
  }

  /// Declaring one more variable, not yet bound in the innermost scope,
  /// extends `DeclaresVars` by that variable.
  lemma DeclaresVarsStep(env: Env, vs: seq<VarDecl>, markLocal: bool, out: seq<VarDecl>, env1: Env, v': VarDecl)
    requires |vs| > 0 && Keeps(env, env1)
    requires DeclaresVars(env, vs[..|vs| - 1], markLocal, out, env1)
    requires vs[|vs| - 1].name !in env1.scopes[|env.scopes| - 1]
    requires v' == vs[|vs| - 1].(varType := v'.varType, isLocal := markLocal || vs[|vs| - 1].isLocal)
    ensures DeclaresVars(env, vs, markLocal, out + [v'], Declared(env1, vs[|vs| - 1].name, VarSym(v')))
  {
    var front := vs[..|vs| - 1];
    var out' := out + [v'];
    var env2 := Declared(env1, vs[|vs| - 1].name, VarSym(v'));
    BindsNamesStep(env, vs, env1, VarSym(v'));
    assert env2.symbols == env1.symbols + [VarSym(v')];
    forall i | 0 <= i < |vs|
      ensures out'[i] == vs[i].(varType := out'[i].varType, isLocal := markLocal || vs[i].isLocal)
    {
      if i < |front| {
        assert vs[i] == front[i];
      }
    }
  }

  /// Binding one more name, not yet bound in the innermost scope, extends
  /// `BindsNames` by that name.
  lemma BindsNamesStep(env: Env, vs: seq<VarDecl>, env1: Env, sym: Symbol)
    requires |vs| > 0 && Keeps(env, env1) && |env1.symbols| == |env.symbols| + |vs| - 1
    requires BindsNames(env, vs[..|vs| - 1], env1)
    requires vs[|vs| - 1].name !in env1.scopes[|env.scopes| - 1]
    ensures BindsNames(env, vs, Declared(env1, vs[|vs| - 1].name, sym))
  {
    var n := |env.scopes|;
    var inner := env.scopes[n - 1];
    var front := vs[..|vs| - 1];
    var last := vs[|vs| - 1];
    var env2 := Declared(env1, last.name, sym);
    var inner2 := env2.scopes[n - 1];
    assert inner2 == env1.scopes[n - 1][last.name := |env1.symbols|];
    assert last.name !in inner;
    forall i | 0 <= i < |vs|
      ensures vs[i].name !in inner
      ensures inner2[vs[i].name] == |env.symbols| + i
    {
      if i < |front| {
        assert vs[i] == front[i];
      }
    }
    forall i, j | 0 <= i < j < |vs|
      ensures vs[i].name != vs[j].name
    {
      assert vs[i] == front[i];
      if j < |front| {
        assert vs[j] == front[j];
      }
    }
    assert Names(vs) == Names(front) + {last.name} by {
      forall i | 0 <= i < |front|
        ensures front[i].name == vs[i].name
      {
      }
    }
  }

  /// A successful list of declarations binds new, distinct names in the
  /// innermost scope, to new VAR symbols in order, and changes each
  /// declaration only in its type and local flag; a failure is a
  /// redeclaration or an undeclared struct.
  lemma {:induction false} DeclareVarsShape(env: Env, vs: seq<VarDecl>, markLocal: bool)
    requires |env.scopes| > 0
    ensures DeclareVars(env, vs, markLocal).Ok? ==>
      DeclaresVars(env, vs, markLocal, DeclareVars(env, vs, markLocal).value.0, DeclareVars(env, vs, markLocal).value.1)
    ensures DeclareVars(env, vs, markLocal).Err? ==>
      DeclareVars(env, vs, markLocal).error.Redeclared? || DeclareVars(env, vs, markLocal).error.UndeclaredStruct?
  {
    if |vs| > 0 {
      var front := vs[..|vs| - 1];
      DeclareVarsShape(env, front, markLocal);
      var v := vs[|vs| - 1].(isLocal := markLocal || vs[|vs| - 1].isLocal);
      match DeclareVars(env, front, markLocal)
      case Err(_) =>
      case Ok((out, env1)) =>
        ResolveTypeMeaning(env1.scopes, env1.symbols, v.varType);
        match DeclareVar(env1, v)
        case Err(_) =>
        case Ok((v', env2)) => DeclaresVarsStep(env, vs, markLocal, out, env1, v');
    }
  }

  /// Once a prefix of the statements fails, the whole list fails with its error.
  lemma {:induction false} ResolveStmtsStops(env: Env, ss: seq<Stmt>, k: nat)
    requires |env.scopes| > 0 && k <= |ss| && ResolveStmts(env, ss[..k]).Err?
    ensures ResolveStmts(env, ss) == ResolveStmts(env, ss[..k])
    decreases |ss|
  {
    if k < |ss| {
      var front := ss[..|ss| - 1];
      assert front[..k] == ss[..k];
      ResolveStmtsStops(env, front, k);
    } else {
      assert ss[..k] == ss;
    }
  }

  /// Once a prefix of the declarations fails, the whole list fails with its error.
  lemma {:induction false} DeclareVarsStops(env: Env, vs: seq<VarDecl>, markLocal: bool, k: nat)
    requires |env.scopes| > 0 && k <= |vs| && DeclareVars(env, vs[..k], markLocal).Err?
    ensures DeclareVars(env, vs, markLocal) == DeclareVars(env, vs[..k], markLocal)
    decreases |vs|
  {
    if k < |vs| {
      var front := vs[..|vs| - 1];
      assert front[..k] == vs[..k];
      DeclareVarsStops(env, front, markLocal, k);
    } else {
      assert vs[..k] == vs;
    }
  }

  /// One more declaration: the program so far, then the declaration in the state it left.
  lemma ResolveDeclsStep(env: Env, ds: seq<Decl>, i: nat, out: seq<Decl>, env1: Env)
    requires |env.scopes| > 0 && i < |ds| && ResolveDecls(env, ds[..i]) == Ok((out, env1))
    ensures |env1.scopes| > 0
    ensures ResolveDecls(env, ds[..i + 1]) ==
      match ResolveDecl(env1, ds[i])
      case Err(e) => Err(e)
      case Ok((d', env2)) => Ok((out + [d'], env2))
  {
    assert ds[..i + 1][..i] == ds[..i];
  }

  /// Once a prefix of the program fails, the whole program fails with its error.
  lemma {:induction false} ResolveDeclsStops(env: Env, ds: seq<Decl>, k: nat)
    requires |env.scopes| > 0 && k <= |ds| && ResolveDecls(env, ds[..k]).Err?
    ensures ResolveDecls(env, ds) == ResolveDecls(env, ds[..k])
    decreases |ds|
  {
    if k < |ds| {
      var front := ds[..|ds| - 1];
      assert front[..k] == ds[..k];
      ResolveDeclsStops(env, front, k);
    } else {
      assert ds[..k] == ds;
    }
  }

  /// A declaration fails exactly when its name is already bound in the
  /// innermost scope (a redeclaration, reported at the type's token) or its
  /// type does not resolve. On success the variable carries its resolved
  /// type, is appended to the arena as a VAR symbol, and `get` of its name
  /// now returns that symbol while every other name keeps its binding.
  lemma DeclareVarMeaning(env: Env, v: VarDecl)
    requires |env.scopes| > 0
    ensures DeclareVar(env, v).Ok? <==>
      v.name !in env.scopes[|env.scopes| - 1] && ResolveType(env.scopes, env.symbols, v.varType).Ok?
    ensures v.name in env.scopes[|env.scopes| - 1] ==> DeclareVar(env, v) == Err(Redeclared(v.varType.token))
    ensures v.name !in env.scopes[|env.scopes| - 1] && ResolveType(env.scopes, env.symbols, v.varType).Err? ==>
      DeclareVar(env, v) == Err(UndeclaredStruct(v.varType.token))
    ensures DeclareVar(env, v).Ok? ==>
      var v' := DeclareVar(env, v).value.0;
      var env' := DeclareVar(env, v).value.1;
      && ResolveType(env.scopes, env.symbols, v.varType) == Ok(v'.varType)
      && v' == v.(varType := v'.varType)
      && env'.symbols == env.symbols + [VarSym(v')]
      && env'.currFunc == env.currFunc
      && Lookup(env'.scopes, v.name) == Some(|env.symbols|)
      && forall n :: n != v.name ==> Lookup(env'.scopes, n) == Lookup(env.scopes, n)
  {
    ResolveTypeMeaning(env.scopes, env.symbols, v.varType);
    forall n ensures n != v.name ==> Lookup(Bind(env.scopes, v.name, |env.symbols|), n) == Lookup(env.scopes, n) {
      LookupAfterBind(env.scopes, v.name, |env.symbols|, n);
    }
  }

  /// An expression statement and a return fail exactly when their
  /// expression uses a name no scope binds, with an error carrying that
  /// name's token. On success the state is unchanged, every use carries the
  /// symbol `get` returns for it at this point, and a return is tied to the
  /// current function. `break` and `continue` pass unchanged.
  lemma ResolvePlainStmtMeaning(env: Env, s: Stmt)
    requires |env.scopes| > 0 && (s.ExprStmt? || s.Return? || s.Break? || s.Continue?)
    ensures s.Break? || s.Continue? || (s.Return? && s.value.None?) ==> ResolveStmt(env, s).Ok?
    ensures s.ExprStmt? ==>
      (ResolveStmt(env, s).Ok? <==> forall t :: t in NameTokens(s.expr) ==> Lookup(env.scopes, t.value).Some?)
    ensures s.Return? && s.value.Some? ==>
      (ResolveStmt(env, s).Ok? <==> forall t :: t in NameTokens(s.value.value) ==> Lookup(env.scopes, t.value).Some?)
    ensures ResolveStmt(env, s).Err? ==>
      var err := ResolveStmt(env, s).error;
      var e := if s.ExprStmt? then s.expr else s.value.value;
      && (s.ExprStmt? || (s.Return? && s.value.Some?))
      && (err.UndeclaredVariable? || err.UndeclaredFunction?)
      && err.token in NameTokens(e) && Lookup(env.scopes, err.token.value).None?
    ensures ResolveStmt(env, s).Ok? ==>
      var s' := ResolveStmt(env, s).value.0;
      && ResolveStmt(env, s).value.1 == env
      && (s.Break? || s.Continue? ==> s' == s)
      && (s.ExprStmt? ==> s'.ExprStmt? && Erase(s'.expr) == Erase(s.expr) && BoundIn(env.scopes, s'.expr))
      && (s.Return? ==> s'.Return? && s'.funcDecl == env.currFunc && s'.value.Some? == s.value.Some?)
      && (s.Return? && s.value.Some? ==>
            Erase(s'.value.value) == Erase(s.value.value) && BoundIn(env.scopes, s'.value.value))
  {
    if s.ExprStmt? {
      ResolveExprMeaning(env.scopes, s.expr);
    } else if s.Return? && s.value.Some? {
      ResolveExprMeaning(env.scopes, s.value.value);
    }
  }

  /// A local variable statement fails exactly when its name is already
  /// bound in the innermost scope or its type does not resolve; on success
  /// it holds the variable with its resolved type, now the arena's last
  /// symbol and what `get` returns for its name.
  lemma ResolveLocalVarMeaning(env: Env, s: Stmt)
    requires |env.scopes| > 0 && s.LocalVar?
    ensures ResolveStmt(env, s).Ok? <==>
      s.varDecl.name !in env.scopes[|env.scopes| - 1] && ResolveType(env.scopes, env.symbols, s.varDecl.varType).Ok?
    ensures s.varDecl.name in env.scopes[|env.scopes| - 1] ==>
      ResolveStmt(env, s) == Err(Redeclared(s.varDecl.varType.token))
    ensures ResolveStmt(env, s).Ok? ==>
      var s' := ResolveStmt(env, s).value.0;
      var env' := ResolveStmt(env, s).value.1;
      && s'.LocalVar?
      && ResolveType(env.scopes, env.symbols, s.varDecl.varType) == Ok(s'.varDecl.varType)
      && s'.varDecl == s.varDecl.(varType := s'.varDecl.varType)
      && env'.symbols == env.symbols + [VarSym(s'.varDecl)]
      && Lookup(env'.scopes, s.varDecl.name) == Some(|env.symbols|)
  {
    DeclareVarMeaning(env, s.varDecl);
  }

  /// `if`, `while` and a nested block: a condition using a name no scope
  /// binds fails with that name's token; otherwise the condition's uses
  /// carry their bindings at this point, each branch or body is visited in
  /// a new innermost scope over the statement's scopes (an `else` branch in
  /// the state the `then` branch left, once its scope is popped), and
  /// afterwards the scopes are those of before.
  lemma ResolveCompoundStmtMeaning(env: Env, s: Stmt)
    requires |env.scopes| > 0 && (s.If? || s.While? || s.Nested?)
    ensures s.If? || s.While? ==>
      var c := if s.If? then s.expr1 else s.expr;
      && (ResolveExpr(env.scopes, c).Err? ==>
            var err := ResolveStmt(env, s).error;
            && ResolveStmt(env, s).Err?
            && (err.UndeclaredVariable? || err.UndeclaredFunction?)
            && err.token in NameTokens(c) && Lookup(env.scopes, err.token.value).None?)
      && (ResolveStmt(env, s).Ok? ==>
            var s' := ResolveStmt(env, s).value.0;
            var c' := if s.If? then s'.expr1 else s'.expr;
            && s'.If? == s.If? && s'.While? == s.While?
            && Erase(c') == Erase(c) && BoundIn(env.scopes, c'))
    ensures s.If? && ResolveStmt(env, s).Ok? ==>
      var s' := ResolveStmt(env, s).value.0;
      && ResolveStmt(Push(env), s.stmt1).Ok? && s'.stmt1 == ResolveStmt(Push(env), s.stmt1).value.0
      && s'.stmt2.Some? == s.stmt2.Some?
      && (s.stmt2.Some? ==>
            && ResolveInScope(env, s.stmt1).Ok?
            && var env1 := ResolveInScope(env, s.stmt1).value.1;
            && ResolveStmt(Push(env1), s.stmt2.value).Ok?
            && s'.stmt2.value == ResolveStmt(Push(env1), s.stmt2.value).value.0)
    ensures s.While? && ResolveStmt(env, s).Ok? ==>
      var s' := ResolveStmt(env, s).value.0;
      ResolveStmt(Push(env), s.stmt).Ok? && s'.stmt == ResolveStmt(Push(env), s.stmt).value.0
    ensures s.Nested? && ResolveStmt(env, s).Ok? ==>
      var s' := ResolveStmt(env, s).value.0;
      && s'.Nested? && s'.block.offset == s.block.offset
      && ResolveStmts(Push(env), s.block.stmts).Ok?
      && s'.block.stmts == ResolveStmts(Push(env), s.block.stmts).value.0
    ensures ResolveStmt(env, s).Ok? ==> ResolveStmt(env, s).value.1.scopes == env.scopes
  {
    if s.If? {
      ResolveExprMeaning(env.scopes, s.expr1);
      if s.stmt2.Some? && ResolveStmt(env, s).Ok? {
        var env1 := ResolveInScope(env, s.stmt1).value.1;
        assert ResolveInScope(env1, s.stmt2.value).Ok?;
      }
    } else if s.While? {
      ResolveExprMeaning(env.scopes, s.expr);
    }
  }

  /// Statement `k` of `ss`, visited in the state the first `k` left, yields `s'`.
  ghost predicate StmtStepAt(env: Env, ss: seq<Stmt>, k: int, s': Stmt)
    requires |env.scopes| > 0
  {
    && 0 <= k < |ss|
    && ResolveStmts(env, ss[..k]).Ok?
    && ResolveStmt(ResolveStmts(env, ss[..k]).value.1, ss[k]).Ok?
    && ResolveStmt(ResolveStmts(env, ss[..k]).value.1, ss[k]).value.0 == s'
  }

  /// The first `k` statements of `ss` pass and statement `k`, in the state
  /// they left, fails with `e`.
  ghost predicate StmtFaultAt(env: Env, ss: seq<Stmt>, k: int, e: SemanticError)
    requires |env.scopes| > 0
  {
    && 0 <= k < |ss|
    && ResolveStmts(env, ss[..k]).Ok?
    && ResolveStmt(ResolveStmts(env, ss[..k]).value.1, ss[k]) == Err(e)
  }

  /// On success every statement of the list is resolved at its point: in
  /// the state that the statements before it left.
  lemma {:induction false} ResolveStmtsSteps(env: Env, ss: seq<Stmt>)
    requires |env.scopes| > 0
    ensures ResolveStmts(env, ss).Ok? ==>
      forall k :: 0 <= k < |ss| ==> StmtStepAt(env, ss, k, ResolveStmts(env, ss).value.0[k])
    decreases |ss|
  {
    if |ss| > 0 {
      var front := ss[..|ss| - 1];
      ResolveStmtsSteps(env, front);
      match ResolveStmts(env, front)
      case Err(_) =>
      case Ok((out, env1)) =>
        match ResolveStmt(env1, ss[|ss| - 1])
        case Err(_) =>
        case Ok((x', env2)) =>
          assert ResolveStmts(env, ss) == Ok((out + [x'], env2));
          forall k | 0 <= k < |ss| ensures StmtStepAt(env, ss, k, (out + [x'])[k]) {
            if k < |front| {
              StmtStepAtPrefix(env, ss, |front|, k, out[k]);
            } else {
              assert ss[..k] == front;
            }
          }
    }
  }

  /// A step of a prefix of `ss` is a step of `ss`.
  lemma StmtStepAtPrefix(env: Env, ss: seq<Stmt>, n: nat, k: nat, x': Stmt)
    requires |env.scopes| > 0 && k < n <= |ss| && StmtStepAt(env, ss[..n], k, x')
    ensures StmtStepAt(env, ss, k, x')
  {
    assert ss[..n][..k] == ss[..k];
  }

  /// The list fails exactly when some statement fails at its point, and
  /// then with that statement's error.
  lemma ResolveStmtsFaults(env: Env, ss: seq<Stmt>)
    requires |env.scopes| > 0
    ensures ResolveStmts(env, ss).Err? <==> exists k, e :: StmtFaultAt(env, ss, k, e)
    ensures forall k, e :: StmtFaultAt(env, ss, k, e) ==> ResolveStmts(env, ss) == Err(e)
  {
    if ResolveStmts(env, ss).Err? {
      ResolveStmtsFirstFault(env, ss);
    }
    forall k, e | StmtFaultAt(env, ss, k, e) ensures ResolveStmts(env, ss) == Err(e) {
      var (out, env1) := ResolveStmts(env, ss[..k]).value;
      ResolveStmtsStep(env, ss, k, out, env1);
      ResolveStmtsStops(env, ss, k + 1);
    }
  }

  /// A failing list of statements has a statement at which it first fails.
  lemma {:induction false} ResolveStmtsFirstFault(env: Env, ss: seq<Stmt>)
    requires |env.scopes| > 0 && ResolveStmts(env, ss).Err?
    ensures exists k, e :: StmtFaultAt(env, ss, k, e)
    decreases |ss|
  {
    var n := |ss| - 1;
    var front := ss[..n];
    assert ss[..n] == front && ss[..n + 1] == ss;
    if ResolveStmts(env, front).Err? {
      ResolveStmtsFirstFault(env, front);
      var k, e :| StmtFaultAt(env, front, k, e);
      assert front[..k] == ss[..k] && front[k] == ss[k];
      assert StmtFaultAt(env, ss, k, e);
    } else {
      var (out, env1) := ResolveStmts(env, front).value;
      ResolveStmtsStep(env, ss, n, out, env1);
      assert StmtFaultAt(env, ss, n, ResolveStmts(env, ss).error);
    }
  }

  /// Declaration `k` of `ds`, visited in the state the first `k` left, yields `d'`.
  ghost predicate DeclStepAt(env: Env, ds: seq<Decl>, k: int, d': Decl)
    requires |env.scopes| > 0
  {
    && 0 <= k < |ds|
    && ResolveDecls(env, ds[..k]).Ok?
    && ResolveDecl(ResolveDecls(env, ds[..k]).value.1, ds[k]).Ok?
    && ResolveDecl(ResolveDecls(env, ds[..k]).value.1, ds[k]).value.0 == d'
  }

  /// The first `k` declarations of `ds` pass and declaration `k`, in the
  /// state they left, fails with `e`.
  ghost predicate DeclFaultAt(env: Env, ds: seq<Decl>, k: int, e: SemanticError)
    requires |env.scopes| > 0
  {
    && 0 <= k < |ds|
    && ResolveDecls(env, ds[..k]).Ok?
    && ResolveDecl(ResolveDecls(env, ds[..k]).value.1, ds[k]) == Err(e)
  }

  /// On success every declaration is resolved in the state that the
  /// declarations before it left.
  lemma ResolveDeclsSteps(env: Env, ds: seq<Decl>)
    requires |env.scopes| > 0
    ensures ResolveDecls(env, ds).Ok? ==>
      forall k :: 0 <= k < |ds| ==> DeclStepAt(env, ds, k, ResolveDecls(env, ds).value.0[k])
  {
    if ResolveDecls(env, ds).Ok? {
      var out := ResolveDecls(env, ds).value.0;
      forall k | 0 <= k < |ds| ensures DeclStepAt(env, ds, k, out[k]) {
        ResolveDeclsPrefix(env, ds, k + 1);
        ResolveDeclsPrefix(env, ds, k);
        var (outK, envK) := ResolveDecls(env, ds[..k]).value;
        ResolveDeclsStep(env, ds, k, outK, envK);
        assert out[..k + 1][k] == out[k];
      }
    }
  }

  /// A prefix of a program that resolves resolves to the prefix of its
  /// declarations.
  lemma {:induction false} ResolveDeclsPrefix(env: Env, ds: seq<Decl>, n: nat)
    requires |env.scopes| > 0 && n <= |ds| && ResolveDecls(env, ds).Ok?
    ensures ResolveDecls(env, ds[..n]).Ok? && ResolveDecls(env, ds[..n]).value.0 == ResolveDecls(env, ds).value.0[..n]
    decreases |ds|
  {
    if n == |ds| {
      assert ds[..n] == ds;
    } else {
      var front := ds[..|ds| - 1];
      if ResolveDecls(env, front).Err? {
        assert false;
      }
      var (outF, env1) := ResolveDecls(env, front).value;
      ResolveDeclsStep(env, ds, |ds| - 1, outF, env1);
      assert ds[..|ds|] == ds;
      ResolveDeclsPrefix(env, front, n);
      assert front[..n] == ds[..n];
    }
  }

  /// The first `k` declarations of `ds` resolve and the first `k + 1` fail with `e`.
  ghost predicate DeclsFailAt(env: Env, ds: seq<Decl>, k: int, e: SemanticError)
    requires |env.scopes| > 0
  {
    0 <= k < |ds| && ResolveDecls(env, ds[..k]).Ok? && ResolveDecls(env, ds[..k + 1]) == Err(e)
  }

  /// The declarations fail exactly when one fails at its point, and then
  /// with that declaration's error.
  lemma ResolveDeclsFaults(env: Env, ds: seq<Decl>)
    requires |env.scopes| > 0
    ensures ResolveDecls(env, ds).Err? <==> exists k, e :: DeclFaultAt(env, ds, k, e)
    ensures forall k, e :: DeclFaultAt(env, ds, k, e) ==> ResolveDecls(env, ds) == Err(e)
  {
    ResolveDeclsFailAt(env, ds);
    forall k, e ensures DeclFaultAt(env, ds, k, e) <==> DeclsFailAt(env, ds, k, e) {
      if 0 <= k < |ds| && ResolveDecls(env, ds[..k]).Ok? {
        var (outK, envK) := ResolveDecls(env, ds[..k]).value;
        ResolveDeclsStep(env, ds, k, outK, envK);
      }
    }
  }

  /// `ResolveDeclsFaults`, read off the prefixes of the program.
  lemma ResolveDeclsFailAt(env: Env, ds: seq<Decl>)
    requires |env.scopes| > 0
    ensures ResolveDecls(env, ds).Err? <==> exists k, e :: DeclsFailAt(env, ds, k, e)
    ensures forall k, e :: DeclsFailAt(env, ds, k, e) ==> ResolveDecls(env, ds) == Err(e)
  {
    if ResolveDecls(env, ds).Err? {
      ResolveDeclsFirstFault(env, ds);
    }
    forall k, e | DeclsFailAt(env, ds, k, e) ensures ResolveDecls(env, ds) == Err(e) {
      ResolveDeclsStops(env, ds, k + 1);
    }
  }

  /// A failing list of declarations has a declaration at which it first fails.
  lemma {:induction false} ResolveDeclsFirstFault(env: Env, ds: seq<Decl>)
    requires |env.scopes| > 0 && ResolveDecls(env, ds).Err?
    ensures exists k, e :: DeclsFailAt(env, ds, k, e)
    decreases |ds|
  {
    var n := |ds| - 1;
    var front := ds[..n];
    assert ds[..n] == front && ds[..n + 1] == ds;
    if ResolveDecls(env, front).Err? {
      ResolveDeclsFirstFault(env, front);
      var k, e :| DeclsFailAt(env, front, k, e);
      assert front[..k] == ds[..k] && front[..k + 1] == ds[..k + 1];
      assert DeclsFailAt(env, ds, k, e);
    } else {
      assert DeclsFailAt(env, ds, n, ResolveDecls(env, ds).error);
    }
  }

  /// Declarations in an inner scope do not change how a type resolves:
  /// struct tags are looked up in the global scope, and the symbols added
  /// are not structs.
  lemma ResolveTypeInInner(env: Env, env': Env, t: Type)
    requires |env.scopes| > 1 && SameOuter(env, env') && env.symbols <= env'.symbols
    requires forall k :: |env.symbols| <= k < |env'.symbols| ==> !env'.symbols[k].StructSym?
    ensures ResolveType(env'.scopes, env'.symbols, t) == ResolveType(env.scopes, env.symbols, t)
  {
    var n := |env.scopes|;
    assert env'.scopes[0] == env'.scopes[..n - 1][0] == env.scopes[..n - 1][0] == env.scopes[0];
  }

  /// The declarations `vs` can all be declared in the innermost scope of
  /// `env`: their names are new to it and distinct, and their types resolve.
  ghost predicate Declarable(env: Env, vs: seq<VarDecl>)
    requires |env.scopes| > 0
  {
    && (forall i :: 0 <= i < |vs| ==>
          vs[i].name !in env.scopes[|env.scopes| - 1] && ResolveType(env.scopes, env.symbols, vs[i].varType).Ok?)
    && (forall i, j :: 0 <= i < j < |vs| ==> vs[i].name != vs[j].name)
  }

  lemma DeclarableSnoc(env: Env, vs: seq<VarDecl>)
    requires |env.scopes| > 0 && |vs| > 0
    ensures
      var front := vs[..|vs| - 1];
      var last := vs[|vs| - 1];
      Declarable(env, vs) <==>
        && Declarable(env, front)
        && last.name !in env.scopes[|env.scopes| - 1] && last.name !in Names(front)
        && ResolveType(env.scopes, env.symbols, last.varType).Ok?
  {
    var front := vs[..|vs| - 1];
    assert forall i :: 0 <= i < |front| ==> front[i] == vs[i];
    assert vs == front + [vs[|vs| - 1]];
  }

  /// In an inner scope, a list of declarations succeeds exactly when it is
  /// declarable, and each declared type is the type resolved in the state
  /// before the list.
  lemma {:induction false} DeclareVarsMeaning(env: Env, vs: seq<VarDecl>, markLocal: bool)
    requires |env.scopes| > 1
    ensures DeclareVars(env, vs, markLocal).Ok? <==> Declarable(env, vs)
    ensures DeclareVars(env, vs, markLocal).Ok? ==> forall i :: 0 <= i < |vs| ==>
      DeclareVars(env, vs, markLocal).value.0[i].varType == ResolveType(env.scopes, env.symbols, vs[i].varType).value
  {
    if |vs| > 0 {
      var front := vs[..|vs| - 1];
      var last := vs[|vs| - 1];
      DeclareVarsMeaning(env, front, markLocal);
      DeclarableSnoc(env, vs);
      var v := last.(isLocal := markLocal || last.isLocal);
      match DeclareVars(env, front, markLocal)
      case Err(e) =>
        assert DeclareVars(env, vs, markLocal) == Err(e);
      case Ok((out, env1)) =>
        DeclareVarsShape(env, front, markLocal);
        DeclareOneMore(env, front, markLocal, out, env1, v);
        match DeclareVar(env1, v)
        case Err(e) =>
          assert DeclareVars(env, vs, markLocal) == Err(e);
        case Ok((v', env2)) =>
          assert DeclareVars(env, vs, markLocal) == Ok((out + [v'], env2));
          TypesSnoc(env, vs, out, v');
    }
  }

  /// The resolved types of `vs`, one more at a time.
  lemma TypesSnoc(env: Env, vs: seq<VarDecl>, out: seq<VarDecl>, v': VarDecl)
    requires |env.scopes| > 0 && |vs| == |out| + 1
    requires forall i :: 0 <= i < |vs| ==> ResolveType(env.scopes, env.symbols, vs[i].varType).Ok?
    requires forall i :: 0 <= i < |out| ==> out[i].varType == ResolveType(env.scopes, env.symbols, vs[i].varType).value
    requires v'.varType == ResolveType(env.scopes, env.symbols, vs[|out|].varType).value
    ensures forall i :: 0 <= i < |vs| ==> (out + [v'])[i].varType == ResolveType(env.scopes, env.symbols, vs[i].varType).value
  {
  }

  /// The declaration after `front`, in the state `front` left: it succeeds
  /// exactly when its name is new to the scope and to `front` and its type
  /// resolves in the state before `front`, and then takes that type.
  lemma DeclareOneMore(env: Env, front: seq<VarDecl>, markLocal: bool, out: seq<VarDecl>, env1: Env, v: VarDecl)
    requires |env.scopes| > 1 && Keeps(env, env1) && DeclaresVars(env, front, markLocal, out, env1)
    ensures DeclareVar(env1, v).Ok? <==>
      v.name !in env.scopes[|env.scopes| - 1] && v.name !in Names(front)
      && ResolveType(env.scopes, env.symbols, v.varType).Ok?
    ensures DeclareVar(env1, v).Ok? ==>
      DeclareVar(env1, v).value.0.varType == ResolveType(env.scopes, env.symbols, v.varType).value
  {
    forall k | |env.symbols| <= k < |env1.symbols|
      ensures !env1.symbols[k].StructSym?
    {
      assert env1.symbols[|env.symbols| + (k - |env.symbols|)] == VarSym(out[k - |env.symbols|]);
    }
    ResolveTypeInInner(env, env1, v.varType);
    var inner1 := env1.scopes[|env.scopes| - 1];
    assert v.name in inner1 <==> v.name in env.scopes[|env.scopes| - 1] || v.name in Names(front);
  }

  /// A parameter list and a body in a new scope: the parameters are
  /// declared exactly when their names are distinct and their types resolve
  /// in `env`, and then carry those types; the body is resolved in the
  /// scope holding the parameters, and the whole fails with the first
  /// failure.
  lemma ResolveScopedMeaning(env: Env, args: seq<VarDecl>, markLocal: bool, stmts: seq<Stmt>)
    requires |env.scopes| > 0
    ensures
      var d := DeclareVars(Push(env), args, markLocal);
      && (d.Ok? <==>
            && (forall i :: 0 <= i < |args| ==> ResolveType(env.scopes, env.symbols, args[i].varType).Ok?)
            && (forall i, j :: 0 <= i < j < |args| ==> args[i].name != args[j].name))
      && (d.Err? ==> ResolveScoped(env, args, markLocal, stmts) == Err(d.error))
      && (d.Ok? ==>
            ResolveScoped(env, args, markLocal, stmts) ==
              match ResolveStmts(d.value.1, stmts)
              case Err(e) => Err(e)
              case Ok((stmts', env')) => Ok(((d.value.0, stmts'), Pop(env'))))
    ensures ResolveScoped(env, args, markLocal, stmts).Ok? ==>
      var (args', stmts') := ResolveScoped(env, args, markLocal, stmts).value.0;
      && (forall i :: 0 <= i < |args| ==>
            args'[i] == args[i].(varType := ResolveType(env.scopes, env.symbols, args[i].varType).value,
                                 isLocal := markLocal || args[i].isLocal))
      && (forall i :: 0 <= i < |stmts| ==> EraseStmt(stmts'[i]) == EraseStmt(stmts[i]))
  {
    var e := Push(env);
    assert e.scopes[0] == env.scopes[0];
    forall t: Type
      ensures ResolveType(e.scopes, e.symbols, t) == ResolveType(env.scopes, env.symbols, t)
    {
    }
    DeclareVarsMeaning(e, args, markLocal);
    DeclareVarsShape(e, args, markLocal);
    var d := DeclareVars(e, args, markLocal);
    if d.Ok? {
      ResolveStmtsErase(d.value.1, stmts);
    }
  }

  /// Declaring `name` in `env` hides the struct tag of `t`: the
  /// declaration is global, under the tag's own key, and that key holds the
  /// struct.
  ghost predicate HidesTag(env: Env, name: string, t: Type)
    requires |env.scopes| > 0
  {
    && |env.scopes| == 1
    && name == StructKey(t.name)
    && GlobalStructTag(env.scopes, env.symbols, t.name).Some?
  }

  /// A name the innermost scope does not bind, or binds to a symbol that is
  /// not a struct, hides no tag.
  lemma NoTagHidden(env: Env, name: string)
    requires |env.scopes| > 0
    requires LocalBinding(env, name).Some? ==>
      LocalBinding(env, name).value < |env.symbols| && !env.symbols[LocalBinding(env, name).value].StructSym?
    ensures forall t: Type :: !HidesTag(env, name, t)
  {
  }

  /// Declaring a symbol that is not a struct leaves every struct tag as it
  /// was, unless it hides that tag.
  lemma ResolveTypeAfterDeclare(env: Env, name: string, sym: Symbol, t: Type)
    requires |env.scopes| > 0 && !sym.StructSym?
    requires !HidesTag(env, name, t)
    ensures ResolveType(Declared(env, name, sym).scopes, Declared(env, name, sym).symbols, t)
      == ResolveType(env.scopes, env.symbols, t)
  {
    var e := Declared(env, name, sym);
    if |env.scopes| > 1 {
      assert e.scopes[0] == env.scopes[0];
    } else {
      assert e.scopes[0] == env.scopes[0][name := |env.symbols|];
    }
  }

  /// Replacing a symbol that is not a struct by another that is not one
  /// leaves every struct tag as it was.
  lemma ResolveTypeRebind(scopes: seq<Scope>, symbols: seq<Symbol>, k: nat, sym: Symbol, t: Type)
    requires |scopes| > 0 && k < |symbols| && !symbols[k].StructSym? && !sym.StructSym?
    ensures ResolveType(scopes, symbols[k := sym], t) == ResolveType(scopes, symbols, t)
  {
  }

  /// `f'` and `env'` are what defining `f` in `env` may produce, the
  /// prototype it completes being `prior`: the return type and (unless the
  /// function's own binding hides a parameter's struct tag) each parameter
  /// type are the types resolved in `env`; the function is bound to a new FUNC
  /// symbol, which is current and, like the prototype's symbol, holds the
  /// resolved definition; no other earlier symbol changes; the parameters
  /// are flagged local and have distinct names; and the body changes only
  /// in what the erasure removes.
  ghost predicate FuncDefined(env: Env, f: FuncDecl, prior: Option<nat>, f': FuncDecl, env': Env)
    requires |env.scopes| > 0
  {
    var h := |env.symbols|;
    && ResolveType(env.scopes, env.symbols, f.retType) == Ok(f'.retType)
    && env'.scopes == Bind(env.scopes, f.name, h)
    && h < |env'.symbols| && env'.symbols[h] == FuncSym(f') && env'.currFunc == Some(h)
    && (prior.Some? ==> prior.value < |env'.symbols| && env'.symbols[prior.value] == FuncSym(f'))
    && (forall k :: 0 <= k < h && Some(k) != prior ==> env'.symbols[k] == env.symbols[k])
    && f'.name == f.name && f'.block.offset == f.block.offset
    && |f'.block.stmts| == |f.block.stmts|
    && (forall i :: 0 <= i < |f.block.stmts| ==> EraseStmt(f'.block.stmts[i]) == EraseStmt(f.block.stmts[i]))
    && EraseBlock(f'.block) == EraseBlock(f.block)
    && |f'.args| == |f.args|
    && (forall i :: 0 <= i < |f.args| ==> f'.args[i] == f.args[i].(varType := f'.args[i].varType, isLocal := true))
    && (forall i :: 0 <= i < |f.args| && !HidesTag(env, f.name, f.args[i].varType) ==>
          ResolveType(env.scopes, env.symbols, f.args[i].varType) == Ok(f'.args[i].varType))
    && (forall i, j :: 0 <= i < j < |f.args| ==> f.args[i].name != f.args[j].name)
  }

  /// A definition fails when its return type does not resolve (with that
  /// error), when a parameter type does not resolve, or when two parameters
  /// share a name; when it succeeds, it is `FuncDefined`.
  lemma ResolveDefinitionMeaning(env: Env, f: FuncDecl, prior: Option<nat>)
    requires |env.scopes| > 0 && (prior.Some? ==> prior.value < |env.symbols|)
    ensures
      var rt := ResolveType(env.scopes, env.symbols, f.retType);
      rt.Err? ==> ResolveDefinition(env, f, prior) == Err(rt.error)
    ensures forall i :: 0 <= i < |f.args| ==>
      ((!HidesTag(env, f.name, f.args[i].varType)
        && ResolveType(env.scopes, env.symbols, f.args[i].varType).Err?) ==> ResolveDefinition(env, f, prior).Err?)
    ensures (exists i, j :: 0 <= i < j < |f.args| && f.args[i].name == f.args[j].name) ==>
      ResolveDefinition(env, f, prior).Err?
    ensures ResolveDefinition(env, f, prior).Ok? ==>
      FuncDefined(env, f, prior, ResolveDefinition(env, f, prior).value.0, ResolveDefinition(env, f, prior).value.1)
  {
    ResolveDefinitionFaults(env, f, prior);
    ResolveDefinitionDefines(env, f, prior);
  }

  /// The error cases of `ResolveDefinitionMeaning`.
  lemma ResolveDefinitionFaults(env: Env, f: FuncDecl, prior: Option<nat>)
    requires |env.scopes| > 0 && (prior.Some? ==> prior.value < |env.symbols|)
    ensures
      var rt := ResolveType(env.scopes, env.symbols, f.retType);
      rt.Err? ==> ResolveDefinition(env, f, prior) == Err(rt.error)
    ensures forall i :: 0 <= i < |f.args| ==>
      ((!HidesTag(env, f.name, f.args[i].varType)
        && ResolveType(env.scopes, env.symbols, f.args[i].varType).Err?) ==> ResolveDefinition(env, f, prior).Err?)
    ensures (exists i, j :: 0 <= i < j < |f.args| && f.args[i].name == f.args[j].name) ==>
      ResolveDefinition(env, f, prior).Err?
  {
    var rt := ResolveType(env.scopes, env.symbols, f.retType);
    if rt.Ok? {
      var h := |env.symbols|;
      var sym := FuncSym(f.(retType := rt.value));
      var env2 := Declared(env, f.name, sym).(currFunc := Some(h));
      DefinitionScopeFails(env, f, rt.value, env2);
      var sc := ResolveScoped(env2, f.args, true, f.block.stmts);
      if sc.Err? {
        assert ResolveDefinition(env, f, prior) == Err(sc.error);
      }
    } else {
      assert ResolveDefinition(env, f, prior) == Err(rt.error);
    }
  }

  /// The success case of `ResolveDefinitionMeaning`.
  lemma ResolveDefinitionDefines(env: Env, f: FuncDecl, prior: Option<nat>)
    requires |env.scopes| > 0 && (prior.Some? ==> prior.value < |env.symbols|)
    ensures ResolveDefinition(env, f, prior).Ok? ==>
      FuncDefined(env, f, prior, ResolveDefinition(env, f, prior).value.0, ResolveDefinition(env, f, prior).value.1)
  {
    var rt := ResolveType(env.scopes, env.symbols, f.retType);
    if rt.Ok? {
      var h := |env.symbols|;
      var sym := FuncSym(f.(retType := rt.value));
      var env2 := Declared(env, f.name, sym).(currFunc := Some(h));
      var sc := ResolveScoped(env2, f.args, true, f.block.stmts);
      if sc.Ok? {
        var ((args, stmts), env3) := sc.value;
        DefinitionScope(env, f, rt.value, env2, args, stmts, env3);
        var f' := f.(retType := rt.value, args := args, block := Block(stmts, f.block.offset));
        var symbols := env3.symbols[h := FuncSym(f')];
        assert ResolveDefinition(env, f, prior) ==
          Ok((f', env3.(symbols := if prior.Some? then symbols[prior.value := FuncSym(f')] else symbols)));
        DefinitionDone(env, f, prior, rt.value, args, stmts, env2, env3);
      } else {
        assert ResolveDefinition(env, f, prior) == Err(sc.error);
      }
    } else {
      assert ResolveDefinition(env, f, prior) == Err(rt.error);
    }
  }

  /// The scope of a definition that resolves: its parameters, with their
  /// types as resolved outside the function, and its statements.
  lemma DefinitionScope(env: Env, f: FuncDecl, t: Type, env2: Env, args: seq<VarDecl>, stmts: seq<Stmt>, env3: Env)
    requires |env.scopes| > 0
    requires env2 == Declared(env, f.name, FuncSym(f.(retType := t))).(currFunc := Some(|env.symbols|))
    requires ResolveScoped(env2, f.args, true, f.block.stmts) == Ok(((args, stmts), env3))
    ensures Restores(env2, env3) && |args| == |f.args| && |stmts| == |f.block.stmts|
    ensures forall i :: 0 <= i < |f.args| ==> args[i] == f.args[i].(varType := args[i].varType, isLocal := true)
    ensures forall i :: 0 <= i < |f.args| && !HidesTag(env, f.name, f.args[i].varType) ==>
      ResolveType(env.scopes, env.symbols, f.args[i].varType) == Ok(args[i].varType)
    ensures forall i :: 0 <= i < |stmts| ==> EraseStmt(stmts[i]) == EraseStmt(f.block.stmts[i])
    ensures forall i, j :: 0 <= i < j < |f.args| ==> f.args[i].name != f.args[j].name
  {
    ResolveScopedMeaning(env2, f.args, true, f.block.stmts);
    forall t': Type | !HidesTag(env, f.name, t')
      ensures ResolveType(env2.scopes, env2.symbols, t') == ResolveType(env.scopes, env.symbols, t')
    {
      ResolveTypeAfterDeclare(env, f.name, FuncSym(f.(retType := t)), t');
    }
  }

  /// The scope of a definition fails when a parameter type, resolved
  /// outside the function, fails or when two parameters share a name.
  lemma DefinitionScopeFails(env: Env, f: FuncDecl, t: Type, env2: Env)
    requires |env.scopes| > 0
    requires env2 == Declared(env, f.name, FuncSym(f.(retType := t))).(currFunc := Some(|env.symbols|))
    ensures forall i :: 0 <= i < |f.args| ==>
      ((!HidesTag(env, f.name, f.args[i].varType)
        && ResolveType(env.scopes, env.symbols, f.args[i].varType).Err?) ==> ResolveScoped(env2, f.args, true, f.block.stmts).Err?)
    ensures (exists i, j :: 0 <= i < j < |f.args| && f.args[i].name == f.args[j].name) ==>
      ResolveScoped(env2, f.args, true, f.block.stmts).Err?
  {
    ResolveScopedMeaning(env2, f.args, true, f.block.stmts);
    forall t': Type | !HidesTag(env, f.name, t')
      ensures ResolveType(env2.scopes, env2.symbols, t') == ResolveType(env.scopes, env.symbols, t')
    {
      ResolveTypeAfterDeclare(env, f.name, FuncSym(f.(retType := t)), t');
    }
  }

  /// The Ok case of `ResolveDefinitionMeaning`, from the parameters and the
  /// body as the scope holding them left them.
  lemma DefinitionDone(env: Env, f: FuncDecl, prior: Option<nat>, t: Type,
                       args: seq<VarDecl>, stmts: seq<Stmt>, env2: Env, env3: Env)
    requires |env.scopes| > 0 && (prior.Some? ==> prior.value < |env.symbols|)
    requires ResolveType(env.scopes, env.symbols, f.retType) == Ok(t)
    requires env2 == Declared(env, f.name, FuncSym(f.(retType := t))).(currFunc := Some(|env.symbols|))
    requires Restores(env2, env3) && |args| == |f.args| && |stmts| == |f.block.stmts|
    requires forall i :: 0 <= i < |f.args| ==> args[i] == f.args[i].(varType := args[i].varType, isLocal := true)
    requires forall i :: 0 <= i < |f.args| && !HidesTag(env, f.name, f.args[i].varType) ==>
      ResolveType(env.scopes, env.symbols, f.args[i].varType) == Ok(args[i].varType)
    requires forall i :: 0 <= i < |stmts| ==> EraseStmt(stmts[i]) == EraseStmt(f.block.stmts[i])
    requires forall i, j :: 0 <= i < j < |f.args| ==> f.args[i].name != f.args[j].name
    ensures
      var h := |env.symbols|;
      var f' := f.(retType := t, args := args, block := Block(stmts, f.block.offset));
      var symbols := env3.symbols[h := FuncSym(f')];
      FuncDefined(env, f, prior, f', env3.(symbols := if prior.Some? then symbols[prior.value := FuncSym(f')] else symbols))
  {
    var f' := f.(retType := t, args := args, block := Block(stmts, f.block.offset));
    assert EraseBlock(f'.block).stmts == EraseBlock(f.block).stmts;
  }

  /// The first conflict is absent exactly when the signatures match, and
  /// it is always about the return type, the argument count or an argument type.
  lemma SignatureConflictMeaning(p: FunProto, f: FuncDecl)
    ensures SignatureConflict(p, f).None? <==> SignatureMatches(p, f)
    ensures SignatureConflict(p, f).Some? ==>
      var e := SignatureConflict(p, f).value;
      e.ConflictingReturnType? || e.ConflictingArgCount? || e.ConflictingArgType?
  {
    if SameType(p.retType, f.retType) && |p.args| == |f.args| {
      ArgConflictMeaning(p, f, 0);
    }
  }

  lemma {:induction false} ArgConflictMeaning(p: FunProto, f: FuncDecl, i: nat)
    requires |p.args| == |f.args| && i <= |f.args|
    ensures ArgConflict(p, f, i).None? <==>
      forall j :: i <= j < |f.args| ==> SameType(f.args[j].varType, p.args[j].varType)
    ensures ArgConflict(p, f, i).Some? ==> ArgConflict(p, f, i).value.ConflictingArgType?
    decreases |f.args| - i
  {
    if i < |f.args| {
      ArgConflictMeaning(p, f, i + 1);
    }
  }

  /// `visit(FuncDecl)`: a name the innermost scope binds to anything but a
  /// prototype is a redeclaration; a prototype with another signature gives
  /// the first conflict; otherwise the definition proceeds as
  /// `ResolveDefinitionMeaning` says, against the same types.
  lemma ResolveFuncMeaning(env: Env, f: FuncDecl)
    requires |env.scopes| > 0 && WellFormed(env)
    ensures
      var prior := LocalBinding(env, f.name);
      var r := ResolveFunc(env, f);
      && (prior.Some? ==> prior.value < |env.symbols|)
      && (prior.Some? && !env.symbols[prior.value].ProtoSym? ==> r == Err(Redeclared(f.retType.token)))
      && (prior.Some? && env.symbols[prior.value].ProtoSym? && !SignatureMatches(env.symbols[prior.value].funProto, f) ==>
            SignatureConflict(env.symbols[prior.value].funProto, f).Some?
            && r == Err(SignatureConflict(env.symbols[prior.value].funProto, f).value))
      && (prior.Some? && r.Ok? ==>
            env.symbols[prior.value].ProtoSym? && SignatureMatches(env.symbols[prior.value].funProto, f))
    ensures
      var prior := LocalBinding(env, f.name);
      var r := ResolveFunc(env, f);
      var rt := ResolveType(env.scopes, env.symbols, f.retType);
      (prior.None? || (env.symbols[prior.value].ProtoSym? && SignatureMatches(env.symbols[prior.value].funProto, f))) ==>
        && (rt.Err? ==> r == Err(rt.error))
        && (forall i :: 0 <= i < |f.args| ==> ResolveType(env.scopes, env.symbols, f.args[i].varType).Err? ==> r.Err?)
        && ((exists i, j :: 0 <= i < j < |f.args| && f.args[i].name == f.args[j].name) ==> r.Err?)
    ensures ResolveFunc(env, f).Ok? ==>
      FuncDefined(env, f, LocalBinding(env, f.name), ResolveFunc(env, f).value.0, ResolveFunc(env, f).value.1)
    ensures ResolveFunc(env, f).Ok? ==>
      var f' := ResolveFunc(env, f).value.0;
      forall i :: 0 <= i < |f.args| ==> ResolveType(env.scopes, env.symbols, f.args[i].varType) == Ok(f'.args[i].varType)
  {
    ResolveFuncFaults(env, f);
    ResolveFuncDefines(env, f);
  }

  /// The error cases of `ResolveFuncMeaning`.
  lemma ResolveFuncFaults(env: Env, f: FuncDecl)
    requires |env.scopes| > 0 && WellFormed(env)
    ensures
      var prior := LocalBinding(env, f.name);
      var r := ResolveFunc(env, f);
      && (prior.Some? ==> prior.value < |env.symbols|)
      && (prior.Some? && !env.symbols[prior.value].ProtoSym? ==> r == Err(Redeclared(f.retType.token)))
      && (prior.Some? && env.symbols[prior.value].ProtoSym? && !SignatureMatches(env.symbols[prior.value].funProto, f) ==>
            SignatureConflict(env.symbols[prior.value].funProto, f).Some?
            && r == Err(SignatureConflict(env.symbols[prior.value].funProto, f).value))
      && (prior.Some? && r.Ok? ==>
            env.symbols[prior.value].ProtoSym? && SignatureMatches(env.symbols[prior.value].funProto, f))
    ensures
      var prior := LocalBinding(env, f.name);
      var r := ResolveFunc(env, f);
      var rt := ResolveType(env.scopes, env.symbols, f.retType);
      (prior.None? || (env.symbols[prior.value].ProtoSym? && SignatureMatches(env.symbols[prior.value].funProto, f))) ==>
        && (rt.Err? ==> r == Err(rt.error))
        && (forall i :: 0 <= i < |f.args| ==> ResolveType(env.scopes, env.symbols, f.args[i].varType).Err? ==> r.Err?)
        && ((exists i, j :: 0 <= i < j < |f.args| && f.args[i].name == f.args[j].name) ==> r.Err?)
  {
    var prior := LocalBinding(env, f.name);
    if prior.Some? && env.symbols[prior.value].ProtoSym? {
      var k := prior.value;
      var p := env.symbols[k].funProto;
      SignatureConflictMeaning(p, f);
      if SignatureMatches(p, f) {
        var env1 := env.(symbols := env.symbols[k := FuncSym(f)]);
        assert ResolveFunc(env, f) == ResolveDefinition(env1, f, prior);
        ResolveDefinitionFaults(env1, f, prior);
        forall t: Type
          ensures ResolveType(env1.scopes, env1.symbols, t) == ResolveType(env.scopes, env.symbols, t)
        {
          ResolveTypeRebind(env.scopes, env.symbols, k, FuncSym(f), t);
        }
        NoTagHidden(env1, f.name);
      } else {
        assert ResolveFunc(env, f) == Err(SignatureConflict(p, f).value);
      }
    } else if prior.None? {
      assert ResolveFunc(env, f) == ResolveDefinition(env, f, None);
      ResolveDefinitionFaults(env, f, None);
      NoTagHidden(env, f.name);
    } else {
      assert ResolveFunc(env, f) == Err(Redeclared(f.retType.token));
    }
  }

  /// The success case of `ResolveFuncMeaning`: the function is defined over
  /// the binding found, and no parameter type is exempt.
  lemma ResolveFuncDefines(env: Env, f: FuncDecl)
    requires |env.scopes| > 0 && WellFormed(env)
    ensures ResolveFunc(env, f).Ok? ==>
      FuncDefined(env, f, LocalBinding(env, f.name), ResolveFunc(env, f).value.0, ResolveFunc(env, f).value.1)
    ensures ResolveFunc(env, f).Ok? ==>
      var f' := ResolveFunc(env, f).value.0;
      forall i :: 0 <= i < |f.args| ==> ResolveType(env.scopes, env.symbols, f.args[i].varType) == Ok(f'.args[i].varType)
  {
    var prior := LocalBinding(env, f.name);
    if prior.Some? && env.symbols[prior.value].ProtoSym? {
      SignatureConflictMeaning(env.symbols[prior.value].funProto, f);
    }
    if prior.Some? && env.symbols[prior.value].ProtoSym? && SignatureMatches(env.symbols[prior.value].funProto, f) {
      var k := prior.value;
      var env1 := env.(symbols := env.symbols[k := FuncSym(f)]);
      assert ResolveFunc(env, f) == ResolveDefinition(env1, f, prior);
      ResolveDefinitionDefines(env1, f, prior);
      forall t: Type
        ensures ResolveType(env1.scopes, env1.symbols, t) == ResolveType(env.scopes, env.symbols, t)
      {
        ResolveTypeRebind(env.scopes, env.symbols, k, FuncSym(f), t);
      }
      var r := ResolveDefinition(env1, f, prior);
      if r.Ok? {
        FuncDefinedRebound(env, env1, f, k, r.value.0, r.value.1);
        NoTagHidden(env, f.name);
      }
    } else if prior.None? {
      assert ResolveFunc(env, f) == ResolveDefinition(env, f, None);
      ResolveDefinitionDefines(env, f, None);
      NoTagHidden(env, f.name);
    } else if prior.Some? && env.symbols[prior.value].ProtoSym? {
      assert ResolveFunc(env, f) == Err(SignatureConflict(env.symbols[prior.value].funProto, f).value);
    } else {
      assert ResolveFunc(env, f) == Err(Redeclared(f.retType.token));
    }
  }

  /// Defining `f` over the prototype at `k`, first rebound to `f`, defines it over the original state.
  lemma FuncDefinedRebound(env: Env, env1: Env, f: FuncDecl, k: nat, f': FuncDecl, env': Env)
    requires |env.scopes| > 0 && k < |env.symbols|
    requires env1 == env.(symbols := env.symbols[k := FuncSym(f)])
    requires forall t: Type :: ResolveType(env1.scopes, env1.symbols, t) == ResolveType(env.scopes, env.symbols, t)
    requires FuncDefined(env1, f, Some(k), f', env')
    ensures FuncDefined(env, f, Some(k), f', env')
  {
  }

  /// `p'` and `env'` are what declaring prototype `p` in `env` may produce:
  /// the name is bound to a new PROTO symbol holding the resolved
  /// prototype, no earlier symbol changes, the return type is kept as
  /// written, and the parameters keep their names and flags, have distinct
  /// names and carry their types as resolved in `env`.
  ghost predicate ProtoDeclared(env: Env, p: FunProto, p': FunProto, env': Env)
    requires |env.scopes| > 0
  {
    var h := |env.symbols|;
    && env'.scopes == Bind(env.scopes, p.name, h)
    && h < |env'.symbols| && env'.symbols[h] == ProtoSym(p')
    && (forall k :: 0 <= k < h ==> env'.symbols[k] == env.symbols[k])
    && env'.currFunc == env.currFunc
    && p'.retType == p.retType && p'.name == p.name
    && |p'.args| == |p.args|
    && (forall i :: 0 <= i < |p.args| ==> p'.args[i] == p.args[i].(varType := p'.args[i].varType))
    && (forall i :: 0 <= i < |p.args| ==>
          ResolveType(env.scopes, env.symbols, p.args[i].varType) == Ok(p'.args[i].varType))
    && (forall i, j :: 0 <= i < j < |p.args| ==> p.args[i].name != p.args[j].name)
  }

  /// `visit(FunProto)`: a name the innermost scope binds is a prototype
  /// redeclaration, reported at the return type's token; otherwise the
  /// prototype is declared exactly when its parameter types resolve and
  /// their names are distinct, and then it is `ProtoDeclared`.
  lemma ResolveProtoMeaning(env: Env, p: FunProto)
    requires |env.scopes| > 0
    ensures LocalBinding(env, p.name).Some? ==> ResolveProto(env, p) == Err(ProtoRedeclared(p.retType.token))
    ensures LocalBinding(env, p.name).None? ==>
      (ResolveProto(env, p).Ok? <==>
         && (forall i :: 0 <= i < |p.args| ==> ResolveType(env.scopes, env.symbols, p.args[i].varType).Ok?)
         && (forall i, j :: 0 <= i < j < |p.args| ==> p.args[i].name != p.args[j].name))
    ensures ResolveProto(env, p).Ok? ==> ProtoDeclared(env, p, ResolveProto(env, p).value.0, ResolveProto(env, p).value.1)
  {
    if LocalBinding(env, p.name).None? {
      var sym := ProtoSym(p);
      var env2 := Declared(env, p.name, sym);
      ResolveScopedMeaning(env2, p.args, false, []);
      NoTagHidden(env, p.name);
      forall t: Type
        ensures ResolveType(env2.scopes, env2.symbols, t) == ResolveType(env.scopes, env.symbols, t)
      {
        ResolveTypeAfterDeclare(env, p.name, sym, t);
      }
      var d := DeclareVars(Push(env2), p.args, false);
      if d.Ok? {
        assert ResolveStmts(d.value.1, []) == Ok(([], d.value.1));
        var env1 := Pop(d.value.1);
        assert ResolveScoped(env2, p.args, false, []) == Ok(((d.value.0, []), env1));
        var p' := p.(args := d.value.0);
        assert ResolveProto(env, p) == Ok((p', env1.(symbols := env1.symbols[|env.symbols| := ProtoSym(p')])));
        ProtoDone(env, p, d.value.0, env1);
      } else {
        assert ResolveProto(env, p) == Err(d.error);
      }
    }
  }

  /// The Ok case of `ResolveProtoMeaning`, from the parameters as declared.
  lemma ProtoDone(env: Env, p: FunProto, args: seq<VarDecl>, env1: Env)
    requires |env.scopes| > 0
    requires Restores(Declared(env, p.name, ProtoSym(p)), env1) && |args| == |p.args|
    requires forall i :: 0 <= i < |p.args| ==> args[i] == p.args[i].(varType := args[i].varType, isLocal := false || p.args[i].isLocal)
    requires forall i :: 0 <= i < |p.args| ==>
      ResolveType(env.scopes, env.symbols, p.args[i].varType) == Ok(args[i].varType)
    requires forall i, j :: 0 <= i < j < |p.args| ==> p.args[i].name != p.args[j].name
    ensures
      var p' := p.(args := args);
      ProtoDeclared(env, p, p', env1.(symbols := env1.symbols[|env.symbols| := ProtoSym(p')]))
  {
  }

  /// Every field type resolves in `env` to a nonzero size.
  ghost predicate SizedFields(env: Env, fields: seq<VarDecl>)
    requires |env.scopes| > 0
  {
    forall i :: 0 <= i < |fields| ==>
      ResolveType(env.scopes, env.symbols, fields[i].varType).Ok?
      && ResolveType(env.scopes, env.symbols, fields[i].varType).value.size > 0
  }

  /// `laid` is `fields` laid out in `env`: each field keeps its name and
  /// flags and carries its type as resolved in `env`, sized by the table
  /// (8 for int, char and any pointer); the offsets and the struct size are
  /// those of the layout.
  ghost predicate FieldsLaid(env: Env, fields: seq<VarDecl>, laid: Layout.Laid)
    requires |env.scopes| > 0
  {
    var sizes := Layout.Sizes(laid.fields);
    && |laid.fields| == |fields|
    && (forall i :: 0 <= i < |fields| ==> ResolveType(env.scopes, env.symbols, fields[i].varType) == Ok(laid.fields[i].varType))
    && (forall i :: 0 <= i < |fields| ==>
          laid.fields[i] == fields[i].(varType := laid.fields[i].varType, offset := laid.fields[i].offset))
    && (forall i :: 0 <= i < |fields| && (fields[i].varType.pointerCount > 0 || fields[i].varType.token.kind in {IntKw, CharKw}) ==>
          laid.fields[i].varType.size == 8)
    && Layout.Layable(sizes)
    && (forall i :: 0 <= i < |fields| ==> laid.fields[i].offset == Layout.FieldOffset(sizes, i))
    && laid.size == Layout.StructSize(sizes)
  }

  /// The fields of a struct are laid out exactly when there is at least
  /// one, every field type resolves to a nonzero size and no two fields
  /// share a name; a struct without fields, or whose field types resolve
  /// but one is a plain `void` (size 0), is the `% 0` fault.
  lemma ResolveFieldsMeaning(env: Env, fields: seq<VarDecl>)
    requires |env.scopes| > 0
    ensures fields == [] ==> ResolveFields(env, fields) == Err(LayoutFault(Layout.ModuloByZero))
    ensures ResolveFields(env, fields).Ok? <==>
      |fields| > 0 && SizedFields(env, fields) && (forall i, j :: 0 <= i < j < |fields| ==> fields[i].name != fields[j].name)
    ensures
      && (forall i :: 0 <= i < |fields| ==> ResolveType(env.scopes, env.symbols, fields[i].varType).Ok?)
      && (forall i, j :: 0 <= i < j < |fields| ==> fields[i].name != fields[j].name)
      && (exists i :: 0 <= i < |fields| && fields[i].varType.token.kind == VoidKw && fields[i].varType.pointerCount == 0)
      ==> ResolveFields(env, fields) == Err(LayoutFault(Layout.ModuloByZero))
    ensures ResolveFields(env, fields).Ok? ==> FieldsLaid(env, fields, ResolveFields(env, fields).value.0)
  {
    ResolveScopedMeaning(env, fields, false, []);
    var d := DeclareVars(Push(env), fields, false);
    if d.Ok? {
      var args := d.value.0;
      assert ResolveStmts(d.value.1, []) == Ok(([], d.value.1));
      assert ResolveScoped(env, fields, false, []) == Ok(((args, []), Pop(d.value.1)));
      FieldsLayout(env, fields, args);
    }
  }

  /// The layout of the resolved fields `args`, from their types as resolved in `env`.
  lemma FieldsLayout(env: Env, fields: seq<VarDecl>, args: seq<VarDecl>)
    requires |env.scopes| > 0 && |args| == |fields|
    requires forall i :: 0 <= i < |fields| ==> ResolveType(env.scopes, env.symbols, fields[i].varType).Ok?
    requires forall i :: 0 <= i < |fields| ==>
      args[i] == fields[i].(varType := ResolveType(env.scopes, env.symbols, fields[i].varType).value,
                            isLocal := false || fields[i].isLocal)
    ensures Layout.LayoutOf(args).Ok? <==> |fields| > 0 && SizedFields(env, fields)
    ensures (exists i :: 0 <= i < |fields| && fields[i].varType.token.kind == VoidKw && fields[i].varType.pointerCount == 0)
      ==> Layout.LayoutOf(args).Err?
    ensures Layout.LayoutOf(args).Ok? ==> FieldsLaid(env, fields, Layout.LayoutOf(args).value)
  {
    forall i | 0 <= i < |fields|
      ensures Layout.Sizes(args)[i] == args[i].varType.size
      ensures fields[i].varType.pointerCount > 0 || fields[i].varType.token.kind in {IntKw, CharKw} ==> args[i].varType.size == 8
      ensures fields[i].varType.pointerCount == 0 && fields[i].varType.token.kind == VoidKw ==> args[i].varType.size == 0
    {
      ResolveTypeMeaning(env.scopes, env.symbols, fields[i].varType);
    }
    if Layout.LayoutOf(args).Ok? {
      var laid := Layout.LayoutOf(args).value;
      assert Layout.Sizes(laid.fields) == Layout.Sizes(args);
    }
  }

  /// Distinct tags have distinct keys.
  lemma StructKeyInjective(a: string, b: string)
    ensures StructKey(a) == StructKey(b) ==> a == b
  {
    if StructKey(a) == StructKey(b) {
      assert |a| == |b|;
      assert a == StructKey(a)[..|a|];
    }
  }

  /// Declaring struct `s` changes how a type resolves only for `struct s`
  /// itself, and only in the global scope, where it now resolves to the new
  /// symbol with the size `s` has so far (a struct may refer to itself).
  lemma ResolveTypeAfterTag(env: Env, s: StructDecl, t: Type)
    requires |env.scopes| > 0 && WellFormed(env)
    ensures
      var env2 := Declared(env, StructKey(s.name), StructSym(s));
      !(t.token.kind == StructKw && t.name == s.name && |env.scopes| == 1) ==>
        ResolveType(env2.scopes, env2.symbols, t) == ResolveType(env.scopes, env.symbols, t)
    ensures
      var env2 := Declared(env, StructKey(s.name), StructSym(s));
      t.token.kind == StructKw && t.name == s.name && |env.scopes| == 1 ==>
        ResolveType(env2.scopes, env2.symbols, t) ==
          Ok(t.(symbol := Some(|env.symbols|), size := SizeOf(StructKw, t.pointerCount, s.size, t.size)))
  {
    var env2 := Declared(env, StructKey(s.name), StructSym(s));
    var key := StructKey(t.name);
    StructKeyInjective(t.name, s.name);
    if |env.scopes| == 1 {
      assert env2.scopes[0] == env.scopes[0][StructKey(s.name) := |env.symbols|];
    } else {
      assert env2.scopes[0] == env.scopes[0];
    }
    if key in env.scopes[0] {
      assert env.scopes[0][key] < |env.symbols|;
    }
  }

  /// `s'` and `env'` are what declaring struct `s` in `env` may produce:
  /// the tag is bound to a new STRUCT symbol holding the laid-out struct,
  /// no earlier symbol changes, and the fields are those of `s` laid out in
  /// the state where the tag is already declared.
  ghost predicate StructDeclared(env: Env, s: StructDecl, s': StructDecl, env': Env)
    requires |env.scopes| > 0
  {
    var h := |env.symbols|;
    && env'.scopes == Bind(env.scopes, StructKey(s.name), h)
    && h < |env'.symbols| && env'.symbols[h] == StructSym(s')
    && (forall k :: 0 <= k < h ==> env'.symbols[k] == env.symbols[k])
    && env'.currFunc == env.currFunc
    && s'.name == s.name
    && FieldsLaid(Declared(env, StructKey(s.name), StructSym(s)), s.varDecls, Layout.Laid(s'.varDecls, s'.size))
  }

  /// `visit(StructDecl)`: a tag visible in any scope is a redeclaration;
  /// otherwise the struct is declared exactly when its fields can be laid
  /// out (see `ResolveFieldsMeaning`) in the state where the tag is bound,
  /// and then it is `StructDeclared`.
  lemma ResolveStructMeaning(env: Env, s: StructDecl)
    requires |env.scopes| > 0
    ensures Lookup(env.scopes, StructKey(s.name)).Some? ==> ResolveStruct(env, s) == Err(StructRedeclared(s.name))
    ensures
      var env2 := Declared(env, StructKey(s.name), StructSym(s));
      Lookup(env.scopes, StructKey(s.name)).None? ==>
        && (ResolveStruct(env, s).Ok? <==>
              |s.varDecls| > 0 && SizedFields(env2, s.varDecls)
              && (forall i, j :: 0 <= i < j < |s.varDecls| ==> s.varDecls[i].name != s.varDecls[j].name))
        && (ResolveStruct(env, s).Err? ==> ResolveFields(env2, s.varDecls) == Err(ResolveStruct(env, s).error))
    ensures ResolveStruct(env, s).Ok? ==>
      StructDeclared(env, s, ResolveStruct(env, s).value.0, ResolveStruct(env, s).value.1)
  {
    var env2 := Declared(env, StructKey(s.name), StructSym(s));
    if Lookup(env.scopes, StructKey(s.name)).None? {
      ResolveFieldsMeaning(env2, s.varDecls);
      var h := |env.symbols|;
      match ResolveFields(env2, s.varDecls)
      case Err(e) =>
        assert ResolveStruct(env, s) == Err(e);
      case Ok((laid, env1)) =>
        var s' := s.(varDecls := laid.fields, size := laid.size);
        assert ResolveStruct(env, s) == Ok((s', env1.(symbols := env1.symbols[h := StructSym(s')])));
        StructDone(env, s, laid, env1);
    }
  }

  /// The Ok case of `ResolveStructMeaning`, from the fields as laid out.
  lemma StructDone(env: Env, s: StructDecl, laid: Layout.Laid, env1: Env)
    requires |env.scopes| > 0
    requires Restores(Declared(env, StructKey(s.name), StructSym(s)), env1)
    requires FieldsLaid(Declared(env, StructKey(s.name), StructSym(s)), s.varDecls, laid)
    ensures
      var s' := s.(varDecls := laid.fields, size := laid.size);
      StructDeclared(env, s, s', env1.(symbols := env1.symbols[|env.symbols| := StructSym(s')]))
  {
    var s' := s.(varDecls := laid.fields, size := laid.size);
    assert Layout.Laid(s'.varDecls, s'.size) == laid;
  }

  /// `visit(Program)`: the declarations in one new scope, popped afterwards.
  function ResolveProgram(env: Env, p: Program): (r: Result<(Program, Env), SemanticError>)
    ensures r.Ok? ==> r.value.1.scopes == env.scopes && |r.value.0.decls| == |p.decls|
  {
    match ResolveDecls(Push(env), p.decls)
    case Err(err) => Err(err)
    case Ok((ds, env')) =>
      assert Push(env).scopes[..|env.scopes|] == env.scopes;
      Ok((Program(ds), Pop(env')))
  }

  /// `d'` and `env'` are what the visit of top-level declaration `d` in
  /// `env` may produce, by its kind.
  ghost predicate DeclResolved(env: Env, d: Decl, d': Decl, env': Env)
    requires |env.scopes| > 0
  {
    match d
    case FuncD(f) => d'.FuncD? && FuncDefined(env, f, LocalBinding(env, f.name), d'.funcDecl, env')
    case ProtoD(p) => d'.ProtoD? && ProtoDeclared(env, p, d'.funProto, env')
    case StructD(s) => d'.StructD? && StructDeclared(env, s, d'.structDecl, env')
    case VarD(v) =>
      && d'.VarD?
      && ResolveType(env.scopes, env.symbols, v.varType) == Ok(d'.varDecl.varType)
      && d'.varDecl == v.(varType := d'.varDecl.varType)
      && env' == Declared(env, v.name, VarSym(d'.varDecl))
  }

  /// The visit of a top-level declaration fails with the error of the visit
  /// its kind calls for, and on success the declaration is `DeclResolved`.
  lemma ResolveDeclMeaning(env: Env, d: Decl)
    requires |env.scopes| > 0 && WellFormed(env)
    ensures ResolveDecl(env, d).Err? ==>
      var e := ResolveDecl(env, d).error;
      match d
      case FuncD(f) => ResolveFunc(env, f) == Err(e)
      case ProtoD(p) => ResolveProto(env, p) == Err(e)
      case StructD(s) => ResolveStruct(env, s) == Err(e)
      case VarD(v) => DeclareVar(env, v) == Err(e)
    ensures ResolveDecl(env, d).Ok? ==> DeclResolved(env, d, ResolveDecl(env, d).value.0, ResolveDecl(env, d).value.1)
  {
    match d
    case FuncD(f) => ResolveFuncMeaning(env, f);
    case ProtoD(p) => ResolveProtoMeaning(env, p);
    case StructD(s) => ResolveStructMeaning(env, s);
    case VarD(v) => DeclareVarMeaning(env, v);
  }

  /// `r` is the program resolved from `env` as a fold over its
  /// declarations in the new program scope: it fails exactly when one of
  /// them fails in the state the declarations before it left, and with that
  /// error; on success each declaration is resolved in that state.
  ghost predicate ProgramFolds(env: Env, p: Program, r: Result<Program, SemanticError>)
  {
    && (r.Err? <==> exists k, e :: DeclFaultAt(Push(env), p.decls, k, e))
    && (forall k, e :: DeclFaultAt(Push(env), p.decls, k, e) ==> r == Err(e))
    && (r.Ok? ==>
          |r.value.decls| == |p.decls|
          && forall k :: 0 <= k < |p.decls| ==> DeclStepAt(Push(env), p.decls, k, r.value.decls[k]))
  }

  /// The program's result, as `ResolveProgram` gives it, is that fold.
  lemma ProgramFoldsOf(env: Env, p: Program, r: Result<Program, SemanticError>)
    requires r.Err? ==> ResolveProgram(env, p) == Err(r.error)
    requires r.Ok? ==> ResolveProgram(env, p).Ok? && ResolveProgram(env, p).value.0 == r.value
    ensures ProgramFolds(env, p, r)
  {
    ResolveDeclsFaults(Push(env), p.decls);
    ResolveDeclsSteps(Push(env), p.decls);
  }

  class Analyzer {
    var scopes: seq<Scope>
    var symbols: seq<Symbol>
    var currFunc: Option<nat>

    /// Every handle in a scope names a symbol of the arena.
    ghost predicate Valid()
      reads this
    {
      forall i, n :: 0 <= i < |scopes| && n in scopes[i] ==> scopes[i][n] < |symbols|
    }

    /// The analysis state as a value.
    ghost function State(): Env
      reads this
    {
      Env(scopes, symbols, currFunc)
    }

    /// The visit's result and the state after it are as `expected` says:
    /// the same error, or the same result and this state.
    ghost predicate Yields<T>(r: Result<T, SemanticError>, expected: Result<(T, Env), SemanticError>)
      reads this
    {
      match expected
      case Err(e) => r == Err(e)
      case Ok((v, env)) => r == Ok(v) && State() == env
    }

    constructor ()
      ensures Valid() && scopes == [] && symbols == [] && currFunc.None?
    {
      scopes := [];
      symbols := [];
      currFunc := None;
    }

    /// `get`: searches the scopes from the innermost outwards.
    method Get(name: string) returns (r: Option<nat>)
      ensures r == Lookup(scopes, name)
    {
      var i := |scopes|;
      assert scopes[..i] == scopes;
      while i > 0
        invariant 0 <= i <= |scopes|
        invariant Lookup(scopes, name) == Lookup(scopes[..i], name)
      {
        assert scopes[..i][..i - 1] == scopes[..i - 1];
        if name in scopes[i - 1] {
          return Some(scopes[i - 1][name]);
        }
        i := i - 1;
      }
      return None;
    }

    /// `get_local`: consults the innermost scope only. A local hit is also
    /// what `get` returns.
    function GetLocal(name: string): (r: Option<nat>)
      reads this
      requires |scopes| > 0
      ensures r.Some? <==> name in scopes[|scopes| - 1]
      ensures r.Some? ==> r == Lookup(scopes, name)
    {
      if name in scopes[|scopes| - 1] then Some(scopes[|scopes| - 1][name]) else None
    }

    /// `put`: binds `name` in the innermost scope; the outer scopes are untouched.
    method Put(name: string, h: nat)
      requires Valid() && |scopes| > 0 && h < |symbols|
      modifies this
      ensures Valid()
      ensures scopes == Bind(old(scopes), name, h)
      ensures symbols == old(symbols) && currFunc == old(currFunc)
    {
      scopes := Bind(scopes, name, h);
    }

    /// Adds a symbol to the arena and returns its handle.
    method NewSymbol(s: Symbol) returns (h: nat)
      requires Valid()
      modifies this
      ensures Valid() && h == |old(symbols)| && symbols == old(symbols) + [s]
      ensures scopes == old(scopes) && currFunc == old(currFunc)
    {
      h := |symbols|;
      symbols := symbols + [s];
    }

    /// The scan of the global scope for the struct tag of `name`.
    method FindStructTag(name: string) returns (r: Option<nat>)
      requires Valid() && |scopes| > 0
      ensures r == GlobalStructTag(scopes, symbols, name)
    {
      var key := StructKey(name);
      var keys := scopes[0].Keys;
      r := None;
      while keys != {}
        invariant keys <= scopes[0].Keys
        invariant r == if key in scopes[0] && key !in keys then GlobalStructTag(scopes, symbols, name) else None
        decreases |keys|
      {
        var k :| k in keys;
        var h := scopes[0][k];
        if symbols[h].StructSym? && k == key {
          r := Some(h);
        }
        keys := keys - {k};
      }
    }

    /// The visit of a type: resolves a struct tag and sizes the type.
    method VisitType(t: Type) returns (r: Result<Type, SemanticError>)
      requires Valid() && |scopes| > 0
      ensures r == ResolveType(scopes, symbols, t)
    {
      if t.token.kind == StructKw {
        var tag := FindStructTag(t.name);
        if tag.None? {
          return Err(UndeclaredStruct(t.token));
        }
        var h := tag.value;
        return Ok(t.(symbol := Some(h), size := SizeOf(StructKw, t.pointerCount, symbols[h].structDecl.size, t.size)));
      }
      return Ok(t.(size := SizeOf(t.token.kind, t.pointerCount, 0, t.size)));
    }

    /// The visit of a variable declaration: a name already bound in the
    /// innermost scope is a redeclaration (shadowing an outer one is fine);
    /// otherwise the type is resolved and a VAR symbol bound.
    method VisitVarDecl(v: VarDecl) returns (r: Result<VarDecl, SemanticError>)
      requires Valid() && |scopes| > 0
      modifies this
      ensures Yields(r, DeclareVar(old(State()), v))
      ensures Valid() && currFunc == old(currFunc)
      ensures v.name in old(scopes)[|old(scopes)| - 1] ==>
        r == Err(Redeclared(v.varType.token)) && scopes == old(scopes) && symbols == old(symbols)
      ensures v.name !in old(scopes)[|old(scopes)| - 1] ==>
        match ResolveType(old(scopes), old(symbols), v.varType)
        case Err(e) => r == Err(e) && scopes == old(scopes) && symbols == old(symbols)
        case Ok(t) =>
          && r == Ok(v.(varType := t))
          && symbols == old(symbols) + [VarSym(v.(varType := t))]
          && scopes == Bind(old(scopes), v.name, |old(symbols)|)
      ensures r.Ok? ==> EraseVar(r.value) == EraseVar(v)
    {
      if GetLocal(v.name).Some? {
        return Err(Redeclared(v.varType.token));
      }
      ResolveTypeMeaning(scopes, symbols, v.varType);
      var t := VisitType(v.varType);
      if t.Err? {
        return Err(t.error);
      }
      var v' := v.(varType := t.value);
      var h := NewSymbol(VarSym(v'));
      Put(v.name, h);
      return Ok(v');
    }

    /// The visit of a statement. Only a local declaration changes the
    /// scopes (by one binding in the innermost scope); every scope pushed
    /// for a nested block, an `if` branch or a loop body is popped again.
    method VisitStmt(s: Stmt) returns (r: Result<Stmt, SemanticError>)
      requires Valid() && |scopes| > 0
      modifies this
      ensures Yields(r, ResolveStmt(old(State()), s))
      ensures Valid() && currFunc == old(currFunc) && old(symbols) <= symbols
      ensures r.Ok? ==>
        scopes == if s.LocalVar? then Bind(old(scopes), s.varDecl.name, |old(symbols)|) else old(scopes)
      ensures s.LocalVar? && s.varDecl.name in old(scopes)[|old(scopes)| - 1] ==>
        r == Err(Redeclared(s.varDecl.varType.token))
      ensures s.ExprStmt? ==>
        match ResolveExpr(old(scopes), s.expr)
        case Err(e) => r == Err(e)
        case Ok(e') => r == Ok(ExprStmt(e'))
      ensures s.Return? && s.value.None? ==> r == Ok(Return(None, currFunc))
      ensures s.Return? && s.value.Some? ==>
        match ResolveExpr(old(scopes), s.value.value)
        case Err(e) => r == Err(e)
        case Ok(e') => r == Ok(Return(Some(e'), currFunc))
      ensures s.If? ==>
        match ResolveExpr(old(scopes), s.expr1)
        case Err(e) => r == Err(e)
        case Ok(e') => r.Ok? ==> r.value.If? && r.value.expr1 == e'
      ensures s.While? ==>
        match ResolveExpr(old(scopes), s.expr)
        case Err(e) => r == Err(e)
        case Ok(e') => r.Ok? ==> r.value.While? && r.value.expr == e'
      ensures s.Break? || s.Continue? ==> r == Ok(s)
      ensures r.Ok? ==> EraseStmt(r.value) == EraseStmt(s)
      decreases s, 1
    {
      ResolveStmtErases(State(), s);
      match s
      case ExprStmt(e) =>
        var re := ResolveExpr(scopes, e);
        ResolveExprMeaning(scopes, e);
        if re.Err? {
          return Err(re.error);
        }
        return Ok(ExprStmt(re.value));
      case LocalVar(v) =>
        var rv := VisitVarDecl(v);
        if rv.Err? {
          return Err(rv.error);
        }
        return Ok(LocalVar(rv.value));
      case Nested(b) =>
        var rb := VisitBlock(b);
        if rb.Err? {
          return Err(rb.error);
        }
        return Ok(Nested(rb.value));
      case Return(value, _) =>
        if value.None? {
          return Ok(Return(None, currFunc));
        }
        var re := ResolveExpr(scopes, value.value);
        ResolveExprMeaning(scopes, value.value);
        if re.Err? {
          return Err(re.error);
        }
        return Ok(Return(Some(re.value), currFunc));
      case If(_, _, _) =>
        r := VisitIf(s);
      case While(_, _) =>
        r := VisitWhile(s);
      case Break =>
        return Ok(s);
      case Continue =>
        return Ok(s);
    }

    /// `visit(If)`: the condition, then each branch in a scope of its own;
    /// the scope for the else branch is pushed even when there is none.
    method VisitIf(s: Stmt) returns (r: Result<Stmt, SemanticError>)
      requires Valid() && |scopes| > 0 && s.If?
      modifies this
      ensures Yields(r, ResolveStmt(old(State()), s))
      ensures Valid() && currFunc == old(currFunc) && old(symbols) <= symbols
      decreases s, 0
    {
      var re := ResolveExpr(scopes, s.expr1);
      if re.Err? {
        return Err(re.error);
      }
      var r1 := VisitInScope(s.stmt1);
      if r1.Err? {
        return Err(r1.error);
      }
      var s2' := None;
      scopes := scopes + [map[]];
      if s.stmt2.Some? {
        var r2 := VisitStmt(s.stmt2.value);
        if r2.Err? {
          return Err(r2.error);
        }
        s2' := Some(r2.value);
      }
      scopes := scopes[..|scopes| - 1];
      return Ok(If(re.value, r1.value, s2'));
    }

    /// `visit(While)`: the condition, then the body in a scope of its own.
    method VisitWhile(s: Stmt) returns (r: Result<Stmt, SemanticError>)
      requires Valid() && |scopes| > 0 && s.While?
      modifies this
      ensures Yields(r, ResolveStmt(old(State()), s))
      ensures Valid() && currFunc == old(currFunc) && old(symbols) <= symbols
      decreases s, 0
    {
      var re := ResolveExpr(scopes, s.expr);
      if re.Err? {
        return Err(re.error);
      }
      var rb := VisitInScope(s.stmt);
      if rb.Err? {
        return Err(rb.error);
      }
      return Ok(While(re.value, rb.value));
    }

    /// Visits `s` in a scope of its own, pushed before and popped after.
    method VisitInScope(s: Stmt) returns (r: Result<Stmt, SemanticError>)
      requires Valid() && |scopes| > 0
      modifies this
      ensures Yields(r, ResolveInScope(old(State()), s))
      ensures Valid() && currFunc == old(currFunc) && old(symbols) <= symbols
      ensures r.Ok? ==> scopes == old(scopes) && EraseStmt(r.value) == EraseStmt(s)
      decreases s, 2
    {
      scopes := scopes + [map[]];
      r := VisitStmt(s);
      if r.Ok? {
        scopes := scopes[..|scopes| - 1];
      }
    }

    /// The statements of a body, visited in order in the current scope.
    /// The outer scopes are untouched and the innermost keeps its bindings.
    method VisitStmts(ss: seq<Stmt>) returns (r: Result<seq<Stmt>, SemanticError>)
      requires Valid() && |scopes| > 0
      modifies this
      ensures Yields(r, ResolveStmts(old(State()), ss))
      ensures Valid() && currFunc == old(currFunc) && old(symbols) <= symbols
      ensures ss == [] ==> r.Ok?
      ensures r.Ok? ==>
        && |r.value| == |ss|
        && (forall i :: 0 <= i < |ss| ==> EraseStmt(r.value[i]) == EraseStmt(ss[i]))
        && |scopes| == |old(scopes)|
        && scopes[..|scopes| - 1] == old(scopes)[..|old(scopes)| - 1]
        && Extends(scopes[|scopes| - 1], old(scopes)[|old(scopes)| - 1])
      decreases ss
    {
      var out: seq<Stmt> := [];
      for i := 0 to |ss|
        invariant Valid()
        invariant ResolveStmts(old(State()), ss[..i]) == Ok((out, State()))
      {
        ResolveStmtsStep(old(State()), ss, i, out, State());
        var rs := VisitStmt(ss[i]);
        if rs.Err? {
          ResolveStmtsStops(old(State()), ss, i + 1);
          return Err(rs.error);
        }
        out := out + [rs.value];
      }
      assert ss[..|ss|] == ss;
      ResolveStmtsErase(old(State()), ss);
      return Ok(out);
    }

    /// The visit of a block: its statements in a scope of its own.
    method VisitBlock(b: Block) returns (r: Result<Block, SemanticError>)
      requires Valid() && |scopes| > 0
      modifies this
      ensures Yields(r, ResolveBlock(old(State()), b))
      ensures Valid() && currFunc == old(currFunc) && old(symbols) <= symbols
      ensures r.Ok? ==> scopes == old(scopes) && |r.value.stmts| == |b.stmts| && r.value.offset == b.offset
      ensures r.Ok? ==> forall i :: 0 <= i < |b.stmts| ==> EraseStmt(r.value.stmts[i]) == EraseStmt(b.stmts[i])
      ensures r.Ok? ==> EraseBlock(r.value) == EraseBlock(b)
      decreases b
    {
      scopes := scopes + [map[]];
      var rs := VisitStmts(b.stmts);
      if rs.Err? {
        return Err(rs.error);
      }
      scopes := scopes[..|scopes| - 1];
      r := Ok(Block(rs.value, b.offset));
      assert EraseBlock(r.value).stmts == EraseBlock(b).stmts;
    }
    /// The symbol the innermost scope binds `name` to, if any.
    ghost function LocalSymbol(name: string): Option<Symbol>
      reads this
      requires |scopes| > 0
    {
      var inner := scopes[|scopes| - 1];
      if name in inner && inner[name] < |symbols| then Some(symbols[inner[name]]) else None
    }

    /// A list of variable declarations (a parameter list or a struct's
    /// fields) visited in order in the current scope; `markLocal` flags
    /// them as locals. None may reuse a name of the scope or of the list.
    method VisitVarDecls(vs: seq<VarDecl>, markLocal: bool) returns (r: Result<seq<VarDecl>, SemanticError>)
      requires Valid() && |scopes| > 0
      modifies this
      ensures Yields(r, DeclareVars(old(State()), vs, markLocal))
      ensures Valid() && currFunc == old(currFunc) && old(symbols) <= symbols
      ensures vs == [] ==> r.Ok?
      ensures r.Ok? ==> |scopes| == |old(scopes)| && DeclaresVars(old(State()), vs, markLocal, r.value, State())
    {
      var out: seq<VarDecl> := [];
      for i := 0 to |vs|
        invariant Valid()
        invariant DeclareVars(old(State()), vs[..i], markLocal) == Ok((out, State()))
      {
        DeclareVarsStep(old(State()), vs, markLocal, i, out, State());
        var rv := VisitVarDecl(vs[i].(isLocal := markLocal || vs[i].isLocal));
        if rv.Err? {
          DeclareVarsStops(old(State()), vs, markLocal, i + 1);
          return Err(rv.error);
        }
        out := out + [rv.value];
      }
      assert vs[..|vs|] == vs;
      DeclareVarsShape(old(State()), vs, markLocal);
      return Ok(out);
    }

    /// `put` of a new symbol: adds it to the arena and binds `name` to it.
    method Declare(name: string, sym: Symbol) returns (h: nat)
      requires Valid() && |scopes| > 0
      modifies this
      ensures Valid() && h == |old(symbols)| && symbols == old(symbols) + [sym]
      ensures scopes == Bind(old(scopes), name, h) && currFunc == old(currFunc)
    {
      h := NewSymbol(sym);
      Put(name, h);
    }

    method PushScope()
      requires Valid()
      modifies this
      ensures Valid() && scopes == old(scopes) + [map[]]
      ensures symbols == old(symbols) && currFunc == old(currFunc)
    {
      scopes := scopes + [map[]];
    }

    method PopScope()
      requires Valid() && |scopes| > 0
      modifies this
      ensures Valid() && scopes == old(scopes)[..|old(scopes)| - 1]
      ensures symbols == old(symbols) && currFunc == old(currFunc)
    {
      scopes := scopes[..|scopes| - 1];
    }

    /// Replaces the declaration behind handle `h`; every scope entry and
    /// every node holding `h` sees the new one.
    method Rebind(h: nat, sym: Symbol)
      requires Valid() && h < |symbols|
      modifies this
      ensures Valid() && symbols == old(symbols)[h := sym]
      ensures scopes == old(scopes) && currFunc == old(currFunc)
    {
      symbols := symbols[h := sym];
    }

    /// A parameter list (marked local or not) and then a list of statements,
    /// in one new scope that is popped afterwards.
    method VisitScoped(args: seq<VarDecl>, markLocal: bool, stmts: seq<Stmt>)
      returns (r: Result<(seq<VarDecl>, seq<Stmt>), SemanticError>)
      requires Valid() && |scopes| > 0
      modifies this
      ensures Yields(r, ResolveScoped(old(State()), args, markLocal, stmts))
      ensures Valid() && currFunc == old(currFunc) && old(symbols) <= symbols
      ensures args == [] && stmts == [] ==> r.Ok?
      ensures r.Ok? ==>
        && scopes == old(scopes)
        && |r.value.0| == |args| && |r.value.1| == |stmts|
        && (forall i :: 0 <= i < |stmts| ==> EraseStmt(r.value.1[i]) == EraseStmt(stmts[i]))
        && (forall i, j :: 0 <= i < j < |args| ==> args[i].name != args[j].name)
        && (forall i :: 0 <= i < |args| ==>
              r.value.0[i] == args[i].(varType := r.value.0[i].varType, isLocal := markLocal || args[i].isLocal))
      ensures r.Ok? ==> forall i :: 0 <= i < |args| ==>
        ResolveType(old(scopes), old(symbols), args[i].varType) == Ok(r.value.0[i].varType)
      ensures (exists i :: 0 <= i < |args| && ResolveType(old(scopes), old(symbols), args[i].varType).Err?) ==> r.Err?
      ensures (exists i, j :: 0 <= i < j < |args| && args[i].name == args[j].name) ==> r.Err?
    {
      ResolveScopedMeaning(State(), args, markLocal, stmts);
      PushScope();
      var rargs := VisitVarDecls(args, markLocal);
      if rargs.Err? {
        return Err(rargs.error);
      }
      var body := VisitStmts(stmts);
      if body.Err? {
        return Err(body.error);
      }
      PopScope();
      return Ok((rargs.value, body.value));
    }

    /// The visit of a function definition. A name already bound in the
    /// scope must be a prototype with the same signature, whose symbol then
    /// becomes this function; anything else is a redeclaration. The function
    /// gets a FUNC symbol, becomes the current function, and its parameters
    /// (marked local) and the statements of its body share one new scope.
    method VisitFuncDecl(f: FuncDecl) returns (r: Result<FuncDecl, SemanticError>)
      requires Valid() && |scopes| > 0
      modifies this
      ensures Yields(r, ResolveFunc(old(State()), f))
      ensures r.Ok? ==> FuncDefined(old(State()), f, old(GetLocal(f.name)), r.value, State())
      ensures Valid()
      ensures old(LocalSymbol(f.name)).Some? && !old(LocalSymbol(f.name)).value.ProtoSym? ==>
        r == Err(Redeclared(f.retType.token))
      ensures (old(LocalSymbol(f.name)).Some? && old(LocalSymbol(f.name)).value.ProtoSym?
               && !SignatureMatches(old(LocalSymbol(f.name)).value.funProto, f)) ==>
        r.Err? && (r.error.ConflictingReturnType? || r.error.ConflictingArgCount? || r.error.ConflictingArgType?)
      ensures r.Ok? ==>
        var h := |old(symbols)|;
        var prior := old(GetLocal(f.name));
        && scopes == Bind(old(scopes), f.name, h)
        && h < |symbols| && symbols[h] == FuncSym(r.value)
        && currFunc == Some(h)
        && (prior.Some? ==> prior.value < |symbols| && symbols[prior.value] == FuncSym(r.value))
        && (forall k :: 0 <= k < h && Some(k) != prior ==> symbols[k] == old(symbols)[k])
        && r.value.name == f.name && r.value.block.offset == f.block.offset
        && |r.value.block.stmts| == |f.block.stmts|
        && (forall i :: 0 <= i < |f.block.stmts| ==> EraseStmt(r.value.block.stmts[i]) == EraseStmt(f.block.stmts[i]))
        && EraseBlock(r.value.block) == EraseBlock(f.block)
        && |r.value.args| == |f.args|
        && (forall i :: 0 <= i < |f.args| ==> r.value.args[i].isLocal && r.value.args[i].name == f.args[i].name)
        && (forall i, j :: 0 <= i < j < |f.args| ==> f.args[i].name != f.args[j].name)
      ensures r.Ok? && old(LocalSymbol(f.name)).Some? ==>
        old(LocalSymbol(f.name)).value.ProtoSym? && SignatureMatches(old(LocalSymbol(f.name)).value.funProto, f)
    {
      ResolveFuncMeaning(State(), f);
      var prior := GetLocal(f.name);
      if prior.Some? {
        var earlier := symbols[prior.value];
        if !earlier.ProtoSym? {
          return Err(Redeclared(f.retType.token));
        }
        var conflict := CheckSignature(earlier.funProto, f);
        if conflict.Some? {
          return Err(conflict.value);
        }
        Rebind(prior.value, FuncSym(f));
      }
      r := VisitDefinition(f, prior);
    }

    /// The definition proper, once the prototype it completes (if any) is
    /// `prior`.
    method VisitDefinition(f: FuncDecl, prior: Option<nat>) returns (r: Result<FuncDecl, SemanticError>)
      requires Valid() && |scopes| > 0 && (prior.Some? ==> prior.value < |symbols|)
      modifies this
      ensures Yields(r, ResolveDefinition(old(State()), f, prior))
      ensures Valid()
    {
      var t := VisitType(f.retType);
      if t.Err? {
        return Err(t.error);
      }
      var f' := f.(retType := t.value);
      var h := Declare(f.name, FuncSym(f'));
      currFunc := Some(h);
      var inner := VisitScoped(f.args, true, f.block.stmts);
      if inner.Err? {
        return Err(inner.error);
      }
      f' := f'.(args := inner.value.0, block := Block(inner.value.1, f.block.offset));
      // The symbols share the definition node: they see its annotations.
      Rebind(h, FuncSym(f'));
      if prior.Some? {
        Rebind(prior.value, FuncSym(f'));
      }
      r := Ok(f');
    }

    /// The visit of a prototype: its name must be new to the scope; it gets
    /// a PROTO symbol and its parameters are visited in a scope of their own.
    /// Its return type is not resolved.
    method VisitFunProto(p: FunProto) returns (r: Result<FunProto, SemanticError>)
      requires Valid() && |scopes| > 0
      modifies this
      ensures Yields(r, ResolveProto(old(State()), p))
      ensures r.Ok? ==> ProtoDeclared(old(State()), p, r.value, State())
      ensures Valid() && currFunc == old(currFunc)
      ensures old(LocalSymbol(p.name)).Some? ==> r == Err(ProtoRedeclared(p.retType.token))
      ensures r.Ok? ==>
        var h := |old(symbols)|;
        && scopes == Bind(old(scopes), p.name, h)
        && h < |symbols| && symbols[h] == ProtoSym(r.value)
        && (forall k :: 0 <= k < h ==> symbols[k] == old(symbols)[k])
        && r.value.retType == p.retType && r.value.name == p.name
        && |r.value.args| == |p.args|
        && (forall i :: 0 <= i < |p.args| ==> r.value.args[i].name == p.args[i].name)
        && (forall i, j :: 0 <= i < j < |p.args| ==> p.args[i].name != p.args[j].name)
    {
      ResolveProtoMeaning(State(), p);
      if GetLocal(p.name).Some? {
        return Err(ProtoRedeclared(p.retType.token));
      }
      var h := Declare(p.name, ProtoSym(p));
      var inner := VisitScoped(p.args, false, []);
      if inner.Err? {
        return Err(inner.error);
      }
      var p' := p.(args := inner.value.0);
      Rebind(h, ProtoSym(p'));
      return Ok(p');
    }

    /// The fields of a struct: visited in a scope of their own, then laid out.
    method VisitFields(fields: seq<VarDecl>) returns (r: Result<Layout.Laid, SemanticError>)
      requires Valid() && |scopes| > 0
      modifies this
      ensures Yields(r, ResolveFields(old(State()), fields))
      ensures r.Ok? <==>
        |fields| > 0 && SizedFields(old(State()), fields)
        && (forall i, j :: 0 <= i < j < |fields| ==> fields[i].name != fields[j].name)
      ensures r.Ok? ==> FieldsLaid(old(State()), fields, r.value)
      ensures Valid() && currFunc == old(currFunc) && old(symbols) <= symbols
      ensures fields == [] ==> r == Err(LayoutFault(Layout.ModuloByZero))
      ensures r.Ok? ==> scopes == old(scopes)
    {
      ResolveFieldsMeaning(State(), fields);
      var visited := VisitScoped(fields, false, []);
      if visited.Err? {
        return Err(visited.error);
      }
      var laid := Layout.LayoutFields(visited.value.0);
      if laid.Err? {
        assert laid.error.ModuloByZero?;
        return Err(LayoutFault(Layout.ModuloByZero));
      }
      return Ok(laid.value);
    }

    /// The visit of a struct declaration: the tag must not be visible in
    /// any scope; it gets a STRUCT symbol, and its fields are visited and
    /// laid out.
    method VisitStructDecl(s: StructDecl) returns (r: Result<StructDecl, SemanticError>)
      requires Valid() && |scopes| > 0
      modifies this
      ensures Yields(r, ResolveStruct(old(State()), s))
      ensures r.Ok? ==> StructDeclared(old(State()), s, r.value, State())
      ensures Valid() && currFunc == old(currFunc)
      ensures Lookup(old(scopes), StructKey(s.name)).Some? ==> r == Err(StructRedeclared(s.name))
      ensures Lookup(old(scopes), StructKey(s.name)).None? && s.varDecls == [] ==>
        r == Err(LayoutFault(Layout.ModuloByZero))
    {
      ResolveStructMeaning(State(), s);
      var existing := Get(StructKey(s.name));
      if existing.Some? {
        return Err(StructRedeclared(s.name));
      }
      var h := Declare(StructKey(s.name), StructSym(s));
      var laid := VisitFields(s.varDecls);
      if laid.Err? {
        return Err(laid.error);
      }
      var s' := s.(varDecls := laid.value.fields, size := laid.value.size);
      Rebind(h, StructSym(s'));
      return Ok(s');
    }

    /// The visit of a top-level declaration: each binds one key in the
    /// program scope, under a new symbol. Only a definition may find its
    /// key already bound, and only to a prototype, whose symbol it takes over.
    method VisitDecl(d: Decl) returns (r: Result<Decl, SemanticError>)
      requires Valid() && |scopes| > 0
      modifies this
      ensures Yields(r, ResolveDecl(old(State()), d))
      ensures r.Err? ==>
        match d
        case FuncD(f) => ResolveFunc(old(State()), f) == Err(r.error)
        case ProtoD(p) => ResolveProto(old(State()), p) == Err(r.error)
        case StructD(sd) => ResolveStruct(old(State()), sd) == Err(r.error)
        case VarD(v) => DeclareVar(old(State()), v) == Err(r.error)
      ensures r.Ok? ==> DeclResolved(old(State()), d, r.value, State())
      ensures Valid()
      ensures r.Ok? ==>
        var h := |old(symbols)|;
        var prior := old(GetLocal(DeclKey(d)));
        && scopes == Bind(old(scopes), DeclKey(d), h)
        && h < |symbols| && (symbols[h].ProtoSym? <==> d.ProtoD?)
        && (prior.Some? ==> d.FuncD? && old(LocalSymbol(DeclKey(d))).value.ProtoSym?)
        && (prior.Some? ==> prior.value < |symbols| && !symbols[prior.value].ProtoSym?)
        && (forall k :: 0 <= k < h && Some(k) != prior ==> symbols[k] == old(symbols)[k])
    {
      ResolveDeclMeaning(State(), d);
      match d
      case FuncD(f) =>
        var rf := VisitFuncDecl(f);
        if rf.Err? {
          return Err(rf.error);
        }
        return Ok(FuncD(rf.value));
      case ProtoD(p) =>
        var rp := VisitFunProto(p);
        if rp.Err? {
          return Err(rp.error);
        }
        return Ok(ProtoD(rp.value));
      case StructD(sd) =>
        LookupIsInnermost(scopes, StructKey(sd.name));
        var rs := VisitStructDecl(sd);
        if rs.Err? {
          return Err(rs.error);
        }
        return Ok(StructD(rs.value));
      case VarD(v) =>
        var rv := VisitVarDecl(v);
        if rv.Err? {
          return Err(rv.error);
        }
        return Ok(VarD(rv.value));
    }

    /// The program scope binds every declared key to a distinct symbol.
    ghost predicate ProgramScope(decls: seq<Decl>, n: nat)
      reads this
      requires n <= |decls| && |scopes| > 0
    {
      DeclaredIn(scopes[|scopes| - 1], symbols, decls, n)
    }

    /// The visit of the program: its declarations in order, in one scope.
    /// A key is declared at most twice, and then as a prototype followed by
    /// its definition.
    method VisitProgram(p: Program) returns (r: Result<Program, SemanticError>)
      requires Valid()
      modifies this
      ensures Yields(r, ResolveProgram(old(State()), p))
      ensures ProgramFolds(old(State()), p, r)
      ensures Valid()
      ensures r.Ok? ==> scopes == old(scopes) && |r.value.decls| == |p.decls|
      ensures r.Ok? ==> forall a, b :: 0 <= a < b < |p.decls| && DeclKey(p.decls[a]) == DeclKey(p.decls[b]) ==>
        p.decls[a].ProtoD? && p.decls[b].FuncD?
    {
      scopes := scopes + [map[]];
      var rs := VisitDecls(p.decls);
      if rs.Err? {
        ProgramFoldsOf(old(State()), p, Err(rs.error));
        return Err(rs.error);
      }
      scopes := scopes[..|scopes| - 1];
      ProgramFoldsOf(old(State()), p, Ok(Program(rs.value)));
      return Ok(Program(rs.value));
    }

    /// The top-level declarations visited in order in a fresh innermost
    /// scope, stopping at the first error. A key is declared at most twice,
    /// and then as a prototype followed by its definition.
    method VisitDecls(decls: seq<Decl>) returns (r: Result<seq<Decl>, SemanticError>)
      requires Valid() && |scopes| > 0 && scopes[|scopes| - 1] == map[]
      modifies this
      ensures Yields(r, ResolveDecls(old(State()), decls))
      ensures Valid()
      ensures r.Ok? ==> forall a, b :: 0 <= a < b < |decls| && DeclKey(decls[a]) == DeclKey(decls[b]) ==>
        decls[a].ProtoD? && decls[b].FuncD?
    {
      var out: seq<Decl> := [];
      for i := 0 to |decls|
        invariant ProgramLoop(decls, i, old(State()), out)
      {
        var rd := VisitDeclInProgram(decls, i, old(State()), out);
        if rd.Err? {
          return Err(rd.error);
        }
        out := out + [rd.value];
      }
      assert decls[..|decls|] == decls;
      return Ok(out);
    }

    /// The state of the program visit after its first `i` declarations:
    /// the program scope binds their keys, a key is declared twice only as
    /// a prototype and then its definition, and the state and the results
    /// so far are those of the fold over the declarations from `env0`.
    ghost predicate ProgramLoop(decls: seq<Decl>, i: nat, env0: Env, out: seq<Decl>)
      reads this
    {
      && i <= |decls| && Valid() && |scopes| > 0 && |env0.scopes| > 0
      && ProgramScope(decls, i)
      && (forall a, b :: 0 <= a < b < i && DeclKey(decls[a]) == DeclKey(decls[b]) ==>
            decls[a].ProtoD? && decls[b].FuncD?)
      && ResolveDecls(env0, decls[..i]) == Ok((out, State()))
    }

    /// One step of the program loop: visiting declaration `i` extends the
    /// loop state by one declaration, or ends the fold with its error.
    method VisitDeclInProgram(decls: seq<Decl>, i: nat, ghost env0: Env, ghost out: seq<Decl>)
      returns (r: Result<Decl, SemanticError>)
      requires i < |decls| && ProgramLoop(decls, i, env0, out)
      modifies this
      ensures Yields(r, ResolveDecl(old(State()), decls[i]))
      ensures Valid()
      ensures r.Ok? ==> ProgramLoop(decls, i + 1, env0, out + [r.value])
      ensures r.Err? ==> ResolveDecls(env0, decls) == Err(r.error)
    {
      ghost var inner := scopes[|scopes| - 1];
      ghost var syms := symbols;
      ghost var prior := GetLocal(DeclKey(decls[i]));
      ResolveDeclsStep(env0, decls, i, out, State());
      r := VisitDecl(decls[i]);
      if r.Err? {
        ResolveDeclsStops(env0, decls, i + 1);
        return;
      }
      DeclaredStep(decls, i, inner, syms, scopes[|scopes| - 1], symbols, prior);
    }
  }
}
