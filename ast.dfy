/// The abstract syntax tree handed from the parser to the back end
/// (parser/ast.h), as a closed family of datatypes. Every pass matches on
/// these constructors instead of going through the visitor double dispatch.
///
/// Fields that the passes write (a symbol, a size, an offset, `isLocal`,
/// `argOffset`, a block's `offset`, a return's `funcDecl`) are ordinary
/// datatype fields: a pass returns the annotated tree. A reference to a
/// symbol is a handle, an index into the resolver's symbol arena.
module Ast {

  datatype Option<+T> = None | Some(value: T)

  datatype Result<+T, +E> = Ok(value: T) | Err(error: E)

  /// The lexer's token kinds that the back end inspects; every other kind
  /// of the lexer is `OtherKind`.
  datatype TokenKind =
    | IntKw | CharKw | VoidKw | StructKw
    | Identifier | IntLiteral | CharLiteral
    | Plus | Minus | Asterisk | Div | Assign | Rem
    | Le | Lt | Ge | Gt | Eq | Ne | LogOr | LogAnd
    | OtherKind

  /// A token: its kind and its text.
  datatype Token = Token(kind: TokenKind, value: string)

  /// A (possibly pointer, possibly array) type. `symbol` is set by the
  /// resolver for struct types; `size` is written by the sizing passes.
  datatype Type = Type(
    token: Token,
    name: string,
    pointerCount: nat,
    arraySize: seq<int>,
    symbol: Option<nat>,
    size: nat)

  /// The operator of a unary expression: a token, or the type of a cast.
  datatype UnaryOp = TokenOp(token: Token) | CastOp(castType: Type)

  datatype Expr =
    | Subscript(array: Expr, index: Expr)
    | Member(structure: Expr, member: string)
    | Primary(token: Token, symbol: Option<nat>)
    | Call(identifier: Token, args: seq<Expr>, symbol: Option<nat>)
    | Unary(unaryOp: UnaryOp, expr1: Expr)
    | Binary(expr1: Expr, op: Token, expr2: Expr)
    | TypeCast(castType: Type, expr1: Expr)

  /// A variable declaration: a global, a local, a parameter or a struct field.
  datatype VarDecl = VarDecl(varType: Type, name: string, offset: int, isLocal: bool)

  datatype Stmt =
    | ExprStmt(expr: Expr)
    | LocalVar(varDecl: VarDecl)
    | Nested(block: Block)
    | Return(value: Option<Expr>, funcDecl: Option<nat>)
    | If(expr1: Expr, stmt1: Stmt, stmt2: Option<Stmt>)
    | While(expr: Expr, stmt: Stmt)
    | Break
    | Continue

  /// A block; `offset` is the running local-offset counter of the
  /// memory-allocation pass.
  datatype Block = Block(stmts: seq<Stmt>, offset: int)

  datatype FuncDecl = FuncDecl(retType: Type, name: string, args: seq<VarDecl>, block: Block, argOffset: int)

  datatype FunProto = FunProto(retType: Type, name: string, args: seq<VarDecl>)

  datatype StructDecl = StructDecl(name: string, varDecls: seq<VarDecl>, size: nat)

  datatype Decl =
    | FuncD(funcDecl: FuncDecl)
    | ProtoD(funProto: FunProto)
    | StructD(structDecl: StructDecl)
    | VarD(varDecl: VarDecl)

  datatype Program = Program(decls: seq<Decl>)

  // The node constructors of the header that fill in defaults.

  /// `Type(token)`: no indirection, no array dimensions, not yet resolved.
  function NewType(token: Token): (t: Type)
    ensures t.token == token && t.pointerCount == 0 && t.arraySize == []
    ensures t.symbol.None?
  {
    Type(token, "", 0, [], None, 0)
  }

  /// `Return()`: a return without a value.
  function NewReturn(): (s: Stmt)
    ensures s.Return? && s.value.None? && s.funcDecl.None?
  {
    Return(None, None)
  }

  /// `Return(e)`: a return of `e`.
  function NewReturnOf(e: Expr): (s: Stmt)
    ensures s.Return? && s.value == Some(e) && s.funcDecl.None?
  {
    Return(Some(e), None)
  }

  /// The two-argument `If`: no else branch.
  function NewIf(e: Expr, s1: Stmt): (s: Stmt)
    ensures s.If? && s.expr1 == e && s.stmt1 == s1 && s.stmt2.None?
  {
    If(e, s1, None)
  }

  /// The three-argument `If`: the else branch is present.
  function NewIfElse(e: Expr, s1: Stmt, s2: Stmt): (s: Stmt)
    ensures s.If? && s.expr1 == e && s.stmt1 == s1 && s.stmt2 == Some(s2)
  {
    If(e, s1, Some(s2))
  }

  /// `Unary(token, e)`: the operator is the token and not a cast.
  function NewTokenUnary(op: Token, e: Expr): (u: Expr)
    ensures u.Unary? && u.unaryOp.TokenOp? && !u.unaryOp.CastOp? && u.unaryOp.token == op && u.expr1 == e
  {
    Unary(TokenOp(op), e)
  }

  /// `Unary(type, e)`: the operator is a cast type and not a token.
  function NewCastUnary(t: Type, e: Expr): (u: Expr)
    ensures u.Unary? && u.unaryOp.CastOp? && !u.unaryOp.TokenOp? && u.unaryOp.castType == t && u.expr1 == e
  {
    Unary(CastOp(t), e)
  }

  // The indentation state of the tree printer.

  /// One indentation unit of the printer.
  const Space: string := "    "

  /// The indentation after `incr`.
  function Indented(indent: string): string
  {
    indent + Space
  }

  /// The indentation after `decr`: one unit fewer, or unchanged when
  /// shorter than one unit.
  function Dedented(indent: string): (r: string)
    ensures r <= indent
    ensures |r| == if |indent| >= |Space| then |indent| - |Space| else |indent|
  {
    if |indent| >= |Space| then indent[..|indent| - |Space|] else indent
  }

  /// `decr` undoes `incr`.
  lemma DedentUndoesIndent(indent: string)
    ensures Dedented(Indented(indent)) == indent
    ensures |Indented(indent)| == |indent| + 4
  {
    assert Indented(indent)[..|indent|] == indent;
  }

  /// `n` units of indentation followed by `n` dedents leave `indent` unchanged.
  lemma {:induction false} DedentsUndoIndents(indent: string, n: nat)
    ensures Repeat(Dedented, Repeat(Indented, indent, n), n) == indent
  {
    if n > 0 {
      calc {
        Repeat(Dedented, Repeat(Indented, indent, n), n);
        Repeat(Dedented, Dedented(Repeat(Indented, indent, n)), n - 1);
        { RepeatLast(Indented, indent, n); DedentUndoesIndent(Repeat(Indented, indent, n - 1)); }
        Repeat(Dedented, Repeat(Indented, indent, n - 1), n - 1);
        { DedentsUndoIndents(indent, n - 1); }
        indent;
      }
    }
  }

  /// `f` applied `n` times.
  function Repeat(f: string -> string, s: string, n: nat): string
    decreases n
  {
    if n == 0 then s else Repeat(f, f(s), n - 1)
  }

  lemma {:induction false} RepeatLast(f: string -> string, s: string, n: nat)
    requires n > 0
    ensures Repeat(f, s, n) == f(Repeat(f, s, n - 1))
    decreases n
  {
    if n > 1 {
      RepeatLast(f, f(s), n - 1);
    }
  }

  /// The printer's indentation (`PrintVisitor::indent`), which `incr` and
  /// `decr` change in place as the printer descends and ascends the tree.
  class PrintIndent {
    const space: string := Space
    var indent: string

    constructor ()
      ensures indent == ""
    {
      indent := "";
    }

    method Incr()
      modifies this
      ensures indent == Indented(old(indent))
    {
      indent := indent + space;
    }

    method Decr()
      modifies this
      ensures indent == Dedented(old(indent))
    {
      if |indent| >= |space| {
        indent := indent[..|indent| - |space|];
      }
    }
  }
}
