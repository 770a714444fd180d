/// Memory allocation (memory/memory_allocation.cpp): the back end's sizes
/// (int 4 bytes, char 1, pointers 8), struct layout with those sizes, stack
/// offsets for parameters (positive, above the return address) and for
/// local declarations (negative, one running counter per open block).
///
/// A block's `offset` field is its running counter: it starts at the
/// enclosing block's current value and grows by the size of each local
/// declared directly in it. A nested block therefore starts where its
/// parent is, and the parent resumes afterwards as if the nested block had
/// not been there: sibling blocks share space.
///
/// Only declarations statements and nested blocks are visited; the bodies
/// of `if` and `while` and all expressions are left alone, as in the source.
module MemoryAllocation {
  import opened Ast
  import Layout
  import NameAnalysis

  /// The size table of this pass: int 4, char 1, void 0, a struct the size
  /// of its declaration, and any pointer 8; other kinds keep their size.
  function SizeOf(kind: TokenKind, pointerCount: nat, structSize: nat, previous: nat): nat
  {
    if pointerCount > 0 then 8
    else match kind
      case IntKw => 4
      case CharKw => 1
      case VoidKw => 0
      case StructKw => structSize
      case _ => previous
  }

  /// The two passes size types alike except for plain int and char, which
  /// name analysis takes as 8 bytes and this pass as 4 and 1.
  lemma SizeTablesAgree(kind: TokenKind, pointerCount: nat, structSize: nat, previous: nat)
    ensures SizeOf(kind, pointerCount, structSize, previous) == NameAnalysis.SizeOf(kind, pointerCount, structSize, previous)
      <==> !(pointerCount == 0 && kind in {IntKw, CharKw})
    ensures pointerCount == 0 && kind == IntKw ==> SizeOf(kind, pointerCount, structSize, previous) == 4
    ensures pointerCount == 0 && kind == CharKw ==> SizeOf(kind, pointerCount, structSize, previous) == 1
    ensures pointerCount > 0 ==> SizeOf(kind, pointerCount, structSize, previous) == 8
  {
  }

  /// The visit of a type: only its size changes. A struct takes the size
  /// recorded when its declaration was visited.
  function Sized(structSizes: map<string, nat>, t: Type): (r: Type)
    ensures r == t.(size := r.size)
    ensures r.size == SizeOf(t.token.kind, t.pointerCount,
                             if t.name in structSizes then structSizes[t.name] else t.size, t.size)
  {
    var structSize := if t.name in structSizes then structSizes[t.name] else t.size;
    t.(size := SizeOf(t.token.kind, t.pointerCount, structSize, t.size))
  }

  /// The visit of a variable declaration with the innermost counter at
  /// `counter`: a local is placed just below the counter's region.
  function AllocVar(structSizes: map<string, nat>, v: VarDecl, counter: int): VarDecl
  {
    var t := Sized(structSizes, v.varType);
    if v.isLocal then v.(varType := t, offset := -counter - 8) else v.(varType := t)
  }

  /// How far a declaration advances the innermost counter.
  function Footprint(structSizes: map<string, nat>, v: VarDecl): nat
  {
    if v.isLocal then Sized(structSizes, v.varType).size else 0
  }

  /// The statements of a block allocated from `counter`, with the final counter.
  function AllocStmts(structSizes: map<string, nat>, ss: seq<Stmt>, counter: int): (r: (seq<Stmt>, int))
    ensures |r.0| == |ss|
    decreases ss, 0
  {
    if |ss| == 0 then ([], counter)
    else
      var front := AllocStmts(structSizes, ss[..|ss| - 1], counter);
      var last := AllocStmt(structSizes, ss[|ss| - 1], front.1);
      (front.0 + [last.0], last.1)
  }

  /// One statement allocated from `counter`, with the counter after it.
  function AllocStmt(structSizes: map<string, nat>, s: Stmt, counter: int): (Stmt, int)
    decreases s, 1
  {
    match s
    case LocalVar(v) => (LocalVar(AllocVar(structSizes, v, counter)), counter + Footprint(structSizes, v))
    case Nested(b) => (Nested(AllocBlock(structSizes, b, counter)), counter)
    case _ => (s, counter)
  }

  /// A block entered with the enclosing counter at `counter`: its own
  /// counter, kept in `offset`, starts there.
  function AllocBlock(structSizes: map<string, nat>, b: Block, counter: int): Block
    decreases b, 2
  {
    var r := AllocStmts(structSizes, b.stmts, counter);
    Block(r.0, r.1)
  }

  /// The local declarations made directly in `ss`, in order.
  function Locals(ss: seq<Stmt>): seq<VarDecl>
  {
    if |ss| == 0 then []
    else
      var s := ss[|ss| - 1];
      Locals(ss[..|ss| - 1]) + (if s.LocalVar? && s.varDecl.isLocal then [s.varDecl] else [])
  }

  /// `locals` are `decls` sized and placed one below the other from `start`.
  ghost predicate PlacedFrom(structSizes: map<string, nat>, locals: seq<VarDecl>, decls: seq<VarDecl>, start: int)
  {
    && |locals| == |decls|
    && forall k {:trigger decls[k]} :: 0 <= k < |locals| ==>
         locals[k] == decls[k].(varType := Sized(structSizes, decls[k].varType),
                                offset := -(start + Layout.Sum(Layout.Sizes(locals), k)) - 8)
  }

  /// The k-th local of a block sits at `-(start + the sizes of the locals
  /// before it) - 8`, and the block's counter ends at `start` plus the sizes
  /// of all its locals. Nested blocks contribute nothing to it.
  lemma {:induction false} AllocatedLocals(structSizes: map<string, nat>, ss: seq<Stmt>, start: int)
    ensures var r := AllocStmts(structSizes, ss, start);
      && PlacedFrom(structSizes, Locals(r.0), Locals(ss), start)
      && r.1 == start + Layout.Sum(Layout.Sizes(Locals(r.0)), |Locals(r.0)|)
  {
    if |ss| > 0 {
      var front := ss[..|ss| - 1];
      var s := ss[|ss| - 1];
      AllocatedLocals(structSizes, front, start);
      var rf := AllocStmts(structSizes, front, start);
      if s.LocalVar? && s.varDecl.isLocal {
        LocalStep(structSizes, ss, start);
      } else {
        LastStmtOther(structSizes, ss, start);
      }
    }
  }

  /// The inductive step of `AllocatedLocals` for a last statement that
  /// declares a local.
  lemma LocalStep(structSizes: map<string, nat>, ss: seq<Stmt>, start: int)
    requires |ss| > 0 && ss[|ss| - 1].LocalVar? && ss[|ss| - 1].varDecl.isLocal
    requires var rf := AllocStmts(structSizes, ss[..|ss| - 1], start);
      && PlacedFrom(structSizes, Locals(rf.0), Locals(ss[..|ss| - 1]), start)
      && rf.1 == start + Layout.Sum(Layout.Sizes(Locals(rf.0)), |Locals(rf.0)|)
    ensures var r := AllocStmts(structSizes, ss, start);
      && PlacedFrom(structSizes, Locals(r.0), Locals(ss), start)
      && r.1 == start + Layout.Sum(Layout.Sizes(Locals(r.0)), |Locals(r.0)|)
  {
    var rf := AllocStmts(structSizes, ss[..|ss| - 1], start);
    LastStmtLocal(structSizes, ss, start);
    PlaceOneMore(structSizes, Locals(rf.0), Locals(ss[..|ss| - 1]), ss[|ss| - 1].varDecl, rf.1, start);
  }

  /// Placing one more local at the counter keeps the placement and
  /// advances the counter by its size.
  lemma PlaceOneMore(structSizes: map<string, nat>, lf: seq<VarDecl>, df: seq<VarDecl>, v: VarDecl,
                     counter: int, start: int)
    requires v.isLocal && PlacedFrom(structSizes, lf, df, start)
    requires counter == start + Layout.Sum(Layout.Sizes(lf), |lf|)
    ensures var locals := lf + [AllocVar(structSizes, v, counter)];
      && PlacedFrom(structSizes, locals, df + [v], start)
      && counter + Sized(structSizes, v.varType).size == start + Layout.Sum(Layout.Sizes(locals), |locals|)
  {
    var locals := lf + [AllocVar(structSizes, v, counter)];
    var decls := df + [v];
    assert locals[..|lf|] == lf;
    PlacedSums(lf, locals);
    PlacedLast(structSizes, lf, v, counter, start);
    forall k | 0 <= k < |locals|
      ensures locals[k] == decls[k].(varType := Sized(structSizes, decls[k].varType),
                                     offset := -(start + Layout.Sum(Layout.Sizes(locals), k)) - 8)
    {
      if k < |lf| {
        assert locals[k] == lf[k] && decls[k] == df[k];
        assert Layout.Sum(Layout.Sizes(lf), k) == Layout.Sum(Layout.Sizes(locals), k);
      } else {
        assert decls[k] == v;
      }
    }
  }

  /// Extending the locals keeps the sums over the earlier ones.
  lemma PlacedSums(lf: seq<VarDecl>, locals: seq<VarDecl>)
    requires |lf| < |locals| && locals[..|lf|] == lf
    ensures forall k :: 0 <= k <= |lf| ==> Layout.Sum(Layout.Sizes(lf), k) == Layout.Sum(Layout.Sizes(locals), k)
  {
    SumAgrees(Layout.Sizes(lf), Layout.Sizes(locals), |lf|);
  }

  /// The new local sits just below the counter, which is where the sum of
  /// the earlier sizes puts it, and the sum grows by its size.
  lemma PlacedLast(structSizes: map<string, nat>, lf: seq<VarDecl>, v: VarDecl, counter: int, start: int)
    requires v.isLocal && counter == start + Layout.Sum(Layout.Sizes(lf), |lf|)
    ensures var locals := lf + [AllocVar(structSizes, v, counter)];
      && locals[|lf|] == v.(varType := Sized(structSizes, v.varType),
                            offset := -(start + Layout.Sum(Layout.Sizes(locals), |lf|)) - 8)
      && counter + Sized(structSizes, v.varType).size == start + Layout.Sum(Layout.Sizes(locals), |locals|)
  {
    var locals := lf + [AllocVar(structSizes, v, counter)];
    assert locals[..|lf|] == lf;
    PlacedSums(lf, locals);
  }

  /// A last statement declaring a local adds it, placed at the counter,
  /// and advances the counter by its size.
  lemma LastStmtLocal(structSizes: map<string, nat>, ss: seq<Stmt>, start: int)
    requires |ss| > 0 && ss[|ss| - 1].LocalVar? && ss[|ss| - 1].varDecl.isLocal
    ensures var front := ss[..|ss| - 1];
      var v := ss[|ss| - 1].varDecl;
      var rf := AllocStmts(structSizes, front, start);
      && Locals(ss) == Locals(front) + [v]
      && Locals(AllocStmts(structSizes, ss, start).0) == Locals(rf.0) + [AllocVar(structSizes, v, rf.1)]
      && AllocStmts(structSizes, ss, start).1 == rf.1 + Sized(structSizes, v.varType).size
  {
    var front := ss[..|ss| - 1];
    var r := AllocStmts(structSizes, ss, start);
    var rf := AllocStmts(structSizes, front, start);
    assert r.0[..|r.0| - 1] == rf.0;
  }

  /// Any other last statement adds no local and leaves the counter alone.
  lemma LastStmtOther(structSizes: map<string, nat>, ss: seq<Stmt>, start: int)
    requires |ss| > 0 && !(ss[|ss| - 1].LocalVar? && ss[|ss| - 1].varDecl.isLocal)
    ensures var front := ss[..|ss| - 1];
      var rf := AllocStmts(structSizes, front, start);
      && Locals(ss) == Locals(front)
      && Locals(AllocStmts(structSizes, ss, start).0) == Locals(rf.0)
      && AllocStmts(structSizes, ss, start).1 == rf.1
  {
    var front := ss[..|ss| - 1];
    var r := AllocStmts(structSizes, ss, start);
    var rf := AllocStmts(structSizes, front, start);
    assert r.0[..|r.0| - 1] == rf.0;
  }

  /// `Sum` over the first `k <= n` sizes sees only those sizes.
  lemma {:induction false} SumAgrees(a: seq<nat>, b: seq<nat>, n: nat)
    requires n <= |a| && n <= |b| && forall i :: 0 <= i < n ==> a[i] == b[i]
    ensures forall k :: 0 <= k <= n ==> Layout.Sum(a, k) == Layout.Sum(b, k)
    decreases n
  {
    if n > 0 {
      SumAgrees(a, b, n - 1);
    }
  }

  /// Each local starts where the previous one's offset minus its size puts
  /// it, so the byte ranges `[offset, offset + size)` of two successive
  /// locals are disjoint exactly when the later one is no larger.
  lemma SuccessiveLocals(structSizes: map<string, nat>, ss: seq<Stmt>, start: int, k: nat)
    requires k + 1 < |Locals(AllocStmts(structSizes, ss, start).0)|
    ensures var locals := Locals(AllocStmts(structSizes, ss, start).0);
      && locals[k + 1].offset == locals[k].offset - locals[k].varType.size
      && (locals[k + 1].offset + locals[k + 1].varType.size <= locals[k].offset
          <==> locals[k + 1].varType.size <= locals[k].varType.size)
  {
    AllocatedLocals(structSizes, ss, start);
    var decls := Locals(ss);
    var locals := Locals(AllocStmts(structSizes, ss, start).0);
    assert locals[k].offset == -(start + Layout.Sum(Layout.Sizes(locals), k)) - 8 && decls[k] == decls[k];
    assert locals[k + 1].offset == -(start + Layout.Sum(Layout.Sizes(locals), k + 1)) - 8 && decls[k + 1] == decls[k + 1];
  }

  /// A nested block starts at the enclosing counter and leaves it unchanged.
  lemma NestedBlockShares(structSizes: map<string, nat>, b: Block, counter: int)
    ensures AllocStmt(structSizes, Nested(b), counter).1 == counter
    ensures var nested := AllocStmt(structSizes, Nested(b), counter).0.block;
      nested.offset == counter + Layout.Sum(Layout.Sizes(Locals(nested.stmts)), |Locals(nested.stmts)|)
  {
    AllocatedLocals(structSizes, b.stmts, counter);
  }

  /// The sum of `sizes[i..]`.
  function SuffixSum(sizes: seq<nat>, i: nat): nat
    requires i <= |sizes|
    decreases |sizes| - i
  {
    if i == |sizes| then 0 else sizes[i] + SuffixSum(sizes, i + 1)
  }

  /// The sizes after position `i` and before it make up the total.
  lemma {:induction false} SuffixSumSplit(sizes: seq<nat>, i: nat)
    requires i <= |sizes|
    ensures Layout.Sum(sizes, i) + SuffixSum(sizes, i) == Layout.Sum(sizes, |sizes|)
    decreases |sizes| - i
  {
    if i < |sizes| {
      SuffixSumSplit(sizes, i + 1);
    }
  }

  /// The parameter offsets: walking the parameters from the last to the
  /// first, each is placed past the return address and the parameters
  /// after it. `argOffset` is the room the parameters take.
  method ParamOffsets(args: seq<VarDecl>) returns (laid: seq<VarDecl>, argOffset: int)
    ensures |laid| == |args|
    ensures forall i :: 0 <= i < |args| ==>
      laid[i] == args[i].(offset := 8 + SuffixSum(Layout.Sizes(args), i))
    ensures argOffset == Layout.Sum(Layout.Sizes(args), |args|)
  {
    ghost var sizes := Layout.Sizes(args);
    var offset := 8;
    laid := args;
    var i := |args|;
    while i > 0
      invariant 0 <= i <= |args| && |laid| == |args|
      invariant offset == 8 + SuffixSum(sizes, i)
      invariant forall k :: 0 <= k < i ==> laid[k] == args[k]
      invariant forall k :: i <= k < |args| ==> laid[k] == args[k].(offset := 8 + SuffixSum(sizes, k))
    {
      i := i - 1;
      offset := offset + args[i].varType.size;
      laid := laid[i := args[i].(offset := offset)];
    }
    argOffset := offset - 8;
    SuffixSumSplit(sizes, 0);
  }

  /// Parameter `i` lies `sizes[i]` above parameter `i + 1`, the last one
  /// `8 + its size` above the frame base, and the first one `8 + argOffset`.
  lemma ParamLayout(sizes: seq<nat>, i: nat)
    requires i < |sizes|
    ensures i + 1 < |sizes| ==> 8 + SuffixSum(sizes, i) == 8 + SuffixSum(sizes, i + 1) + sizes[i]
    ensures i + 1 == |sizes| ==> 8 + SuffixSum(sizes, i) == 8 + sizes[i]
    ensures 8 + SuffixSum(sizes, 0) == 8 + Layout.Sum(sizes, |sizes|)
  {
    SuffixSumSplit(sizes, 0);
  }

  /// An earlier parameter lies higher than a later one, by at least its
  /// own size: the first-declared parameter has the largest offset.
  lemma {:induction false} ParamsOrdered(sizes: seq<nat>, i: nat, j: nat)
    requires i < j <= |sizes|
    ensures SuffixSum(sizes, i) >= SuffixSum(sizes, j) + sizes[i]
    decreases j - i
  {
    if i + 1 < j {
      ParamsOrdered(sizes, i + 1, j);
    }
  }

  // ----- Struct, function and program visits as values -----

  /// The fields of a struct visited in order with the innermost counter at
  /// `counter`: each is sized (and, if flagged local, placed) as any
  /// declaration is; also the counter after them.
  function AllocFields(structSizes: map<string, nat>, vs: seq<VarDecl>, counter: int): (r: (seq<VarDecl>, int))
    ensures |r.0| == |vs|
    ensures forall k :: 0 <= k < |vs| ==>
      r.0[k].varType == Sized(structSizes, vs[k].varType) && r.0[k].name == vs[k].name
    ensures forall k :: 0 <= k < |vs| && !vs[k].isLocal ==>
      r.0[k] == vs[k].(varType := Sized(structSizes, vs[k].varType))
    ensures (forall k :: 0 <= k < |vs| ==> !vs[k].isLocal) ==> r.1 == counter
    ensures r.1 >= counter
  {
    if |vs| == 0 then ([], counter)
    else
      var front := AllocFields(structSizes, vs[..|vs| - 1], counter);
      var v := vs[|vs| - 1];
      (front.0 + [AllocVar(structSizes, v, front.1)], front.1 + Footprint(structSizes, v))
  }

  /// A struct declaration visited with the innermost counter at `counter`:
  /// its fields visited and laid out (or the layout's `% 0` fault), and the
  /// counter after the fields.
  function AllocStruct(structSizes: map<string, nat>, s: StructDecl, counter: int)
    : (Result<StructDecl, Layout.Fault>, int)
  {
    var f := AllocFields(structSizes, s.varDecls, counter);
    var laid := Layout.LayoutOf(f.0);
    if laid.Err? then (Err(laid.error), f.1)
    else (Ok(s.(varDecls := laid.value.fields, size := laid.value.size)), f.1)
  }

  /// A struct with no fields faults; otherwise its fields keep their names,
  /// get their types sized, and sit at the offsets of the layout of their
  /// sizes, and the struct takes the padded size.
  lemma AllocStructMeaning(structSizes: map<string, nat>, s: StructDecl, counter: int)
    ensures var r := AllocStruct(structSizes, s, counter);
      && (s.varDecls == [] ==> r.0.Err?)
      && (r.0.Ok? ==>
            var sizes := Layout.Sizes(r.0.value.varDecls);
            && r.0.value.name == s.name
            && |r.0.value.varDecls| == |s.varDecls|
            && (forall i :: 0 <= i < |s.varDecls| ==>
                  r.0.value.varDecls[i].varType == Sized(structSizes, s.varDecls[i].varType)
                  && r.0.value.varDecls[i].name == s.varDecls[i].name)
            && Layout.Layable(sizes)
            && (forall i :: 0 <= i < |sizes| ==> r.0.value.varDecls[i].offset == Layout.FieldOffset(sizes, i))
            && r.0.value.size == Layout.StructSize(sizes))
  {
    var f := AllocFields(structSizes, s.varDecls, counter);
    var laid := Layout.LayoutOf(f.0);
    if laid.Ok? {
      assert Layout.Sizes(laid.value.fields) == Layout.Sizes(f.0);
    }
  }

  /// The parameters of `f` with their types sized.
  function SizedArgs(structSizes: map<string, nat>, args: seq<VarDecl>): (r: seq<VarDecl>)
    ensures |r| == |args|
  {
    seq(|args|, i requires 0 <= i < |args| => args[i].(varType := Sized(structSizes, args[i].varType)))
  }

  /// A function definition visited with the innermost counter at `counter`:
  /// its parameters sized and placed by the reverse walk, the room they take,
  /// and its body allocated from the counter.
  function AllocFunc(structSizes: map<string, nat>, f: FuncDecl, counter: int): FuncDecl
  {
    var args := SizedArgs(structSizes, f.args);
    var sizes := Layout.Sizes(args);
    f.(args := seq(|args|, i requires 0 <= i < |args| => args[i].(offset := 8 + SuffixSum(sizes, i))),
       argOffset := Layout.Sum(sizes, |args|),
       block := AllocBlock(structSizes, f.block, counter))
  }

  /// One top-level declaration visited with the struct sizes and innermost
  /// counter given: its result, and the struct sizes and counter after it.
  /// A struct's size is recorded under its name; prototypes are left alone.
  function AllocDecl(structSizes: map<string, nat>, d: Decl, counter: int)
    : (Result<Decl, Layout.Fault>, map<string, nat>, int)
  {
    match d
    case FuncD(f) => (Ok(FuncD(AllocFunc(structSizes, f, counter))), structSizes, counter)
    case ProtoD(_) => (Ok(d), structSizes, counter)
    case StructD(s) =>
      var a := AllocStruct(structSizes, s, counter);
      if a.0.Err? then (Err(a.0.error), structSizes, a.1)
      else (Ok(StructD(a.0.value)), structSizes[s.name := a.0.value.size], a.1)
    case VarD(v) => (Ok(VarD(AllocVar(structSizes, v, counter))), structSizes, counter + Footprint(structSizes, v))
  }

  /// The declarations `ds` visited in order: the visited declarations, or
  /// the first layout fault (after which nothing more is visited), with the
  /// struct sizes and the innermost counter afterwards.
  function AllocDecls(structSizes: map<string, nat>, ds: seq<Decl>, counter: int)
    : (Result<seq<Decl>, Layout.Fault>, map<string, nat>, int)
  {
    if |ds| == 0 then (Ok([]), structSizes, counter)
    else
      var front := AllocDecls(structSizes, ds[..|ds| - 1], counter);
      if front.0.Err? then front
      else
        var last := AllocDecl(front.1, ds[|ds| - 1], front.2);
        if last.0.Err? then (Err(last.0.error), last.1, last.2)
        else (Ok(front.0.value + [last.0.value]), last.1, last.2)
  }

  /// The names of the structs declared in `ds`.
  function StructNames(ds: seq<Decl>): set<string>
  {
    set i | 0 <= i < |ds| && ds[i].StructD? :: ds[i].structDecl.name
  }

  /// No later declaration of `ds` declares a struct named as the one at `i`.
  ghost predicate LastStructNamed(ds: seq<Decl>, i: nat)
    requires i < |ds| && ds[i].StructD?
  {
    forall j :: i < j < |ds| && ds[j].StructD? ==> ds[j].structDecl.name != ds[i].structDecl.name
  }

  /// Once a prefix faults, the rest of the declarations are not visited.
  lemma {:induction false} AllocDeclsStopAtFault(structSizes: map<string, nat>, ds: seq<Decl>, k: nat, counter: int)
    requires k <= |ds| && AllocDecls(structSizes, ds[..k], counter).0.Err?
    ensures AllocDecls(structSizes, ds, counter) == AllocDecls(structSizes, ds[..k], counter)
    decreases |ds| - k
  {
    if k < |ds| {
      assert ds[..k + 1][..k] == ds[..k];
      AllocDeclsStopAtFault(structSizes, ds, k + 1, counter);
    } else {
      assert ds[..k] == ds;
    }
  }

  /// One more declaration after a prefix that did not fault.
  lemma AllocDeclsSnoc(structSizes: map<string, nat>, ds: seq<Decl>, i: nat, counter: int)
    requires i < |ds|
    ensures var front := AllocDecls(structSizes, ds[..i], counter);
      front.0.Ok? ==>
        var last := AllocDecl(front.1, ds[i], front.2);
        AllocDecls(structSizes, ds[..i + 1], counter) ==
          if last.0.Err? then (Err(last.0.error), last.1, last.2)
          else (Ok(front.0.value + [last.0.value]), last.1, last.2)
  {
    assert ds[..i + 1][..i] == ds[..i];
  }

  /// Declaration `i` of `ds`, visited with the struct sizes and counter
  /// that the declarations before it left, yields `d'`.
  ghost predicate AllocStepAt(structSizes: map<string, nat>, ds: seq<Decl>, counter: int, i: int, d': Decl)
  {
    && 0 <= i < |ds|
    && var pre := AllocDecls(structSizes, ds[..i], counter);
       pre.0.Ok? && AllocDecl(pre.1, ds[i], pre.2).0 == Ok(d')
  }

  /// Each declaration's result is its own visit with the struct sizes and
  /// counter that the declarations before it left; a completed pass keeps
  /// the number of declarations and leaves prototypes alone.
  lemma {:induction false} AllocDeclsSteps(structSizes: map<string, nat>, ds: seq<Decl>, counter: int)
    ensures var g := AllocDecls(structSizes, ds, counter);
      g.0.Ok? ==>
        && |g.0.value| == |ds|
        && (forall i :: 0 <= i < |ds| ==> AllocStepAt(structSizes, ds, counter, i, g.0.value[i]))
        && (forall i :: 0 <= i < |ds| && ds[i].ProtoD? ==> g.0.value[i] == ds[i])
  {
    if |ds| > 0 {
      var front := ds[..|ds| - 1];
      AllocDeclsSteps(structSizes, front, counter);
      var g := AllocDecls(structSizes, ds, counter);
      var f := AllocDecls(structSizes, front, counter);
      if g.0.Ok? {
        var a := AllocDecl(f.1, ds[|ds| - 1], f.2);
        assert f.0.Ok? && a.0.Ok? && g.0.value == f.0.value + [a.0.value];
        forall i | 0 <= i < |ds|
          ensures AllocStepAt(structSizes, ds, counter, i, g.0.value[i])
        {
          if i < |ds| - 1 {
            AllocStepAtPrefix(structSizes, ds, counter, i, f.0.value[i]);
          } else {
            assert ds[..i] == front;
          }
        }
      }
    }
  }

  /// A step of the front of `ds` is a step of `ds`.
  lemma AllocStepAtPrefix(structSizes: map<string, nat>, ds: seq<Decl>, counter: int, i: nat, d': Decl)
    requires i < |ds| - 1 && AllocStepAt(structSizes, ds[..|ds| - 1], counter, i, d')
    ensures AllocStepAt(structSizes, ds, counter, i, d')
  {
    assert ds[..|ds| - 1][..i] == ds[..i];
  }

  /// A completed pass records a size for every struct it declares, and for
  /// each struct not redeclared later it is that struct's laid-out size;
  /// no other name is added.
  lemma {:induction false} AllocDeclsSizes(structSizes: map<string, nat>, ds: seq<Decl>, counter: int)
    ensures var g := AllocDecls(structSizes, ds, counter);
      g.0.Ok? ==>
        && |g.0.value| == |ds|
        && g.1.Keys == structSizes.Keys + StructNames(ds)
        && (forall i :: 0 <= i < |ds| && ds[i].StructD? && LastStructNamed(ds, i) ==>
              g.0.value[i].StructD? && g.1[ds[i].structDecl.name] == g.0.value[i].structDecl.size)
  {
    if |ds| > 0 {
      var front := ds[..|ds| - 1];
      var d := ds[|ds| - 1];
      AllocDeclsSizes(structSizes, front, counter);
      var g := AllocDecls(structSizes, ds, counter);
      var f := AllocDecls(structSizes, front, counter);
      if g.0.Ok? {
        assert f.0.Ok?;
        var a := AllocDecl(f.1, d, f.2);
        AllocDeclRecords(f.1, d, f.2);
        assert a.0.Ok? && g.0.value == f.0.value + [a.0.value] && g.1 == a.1;
        SizesSnoc(structSizes, ds, f.0.value, f.1, a.0.value, a.1);
      }
    }
  }

  /// `AllocDeclsSizes` for one more declaration `d'`, visited to `d'` with
  /// struct sizes `after`, given it for the declarations before.
  lemma SizesSnoc(structSizes: map<string, nat>, ds: seq<Decl>, out: seq<Decl>, before: map<string, nat>,
                  d': Decl, after: map<string, nat>)
    requires |ds| > 0 && |out| == |ds| - 1
    requires before.Keys == structSizes.Keys + StructNames(ds[..|ds| - 1])
    requires forall i :: 0 <= i < |ds| - 1 && ds[i].StructD? && LastStructNamed(ds[..|ds| - 1], i) ==>
      out[i].StructD? && before[ds[i].structDecl.name] == out[i].structDecl.size
    requires d'.StructD? == ds[|ds| - 1].StructD?
    requires after == if d'.StructD? then before[ds[|ds| - 1].structDecl.name := d'.structDecl.size] else before
    ensures after.Keys == structSizes.Keys + StructNames(ds)
    ensures forall i :: 0 <= i < |ds| && ds[i].StructD? && LastStructNamed(ds, i) ==>
      (out + [d'])[i].StructD? && after[ds[i].structDecl.name] == (out + [d'])[i].structDecl.size
  {
    var front := ds[..|ds| - 1];
    var d := ds[|ds| - 1];
    StructNamesSnoc(ds);
    forall i | 0 <= i < |ds| && ds[i].StructD? && LastStructNamed(ds, i)
      ensures (out + [d'])[i].StructD? && ds[i].structDecl.name in after
      ensures after[ds[i].structDecl.name] == (out + [d'])[i].structDecl.size
    {
      var name := ds[i].structDecl.name;
      if i < |front| {
        LastStructInFront(ds, i);
        assert (out + [d'])[i] == out[i];
        assert name in before && before[name] == out[i].structDecl.size;
        assert after[name] == before[name];
      } else {
        assert (out + [d'])[i] == d';
      }
    }
  }

  /// The struct names of `ds` are those of all but its last declaration,
  /// and the last one's if it is a struct.
  lemma StructNamesSnoc(ds: seq<Decl>)
    requires |ds| > 0
    ensures var d := ds[|ds| - 1];
      StructNames(ds) == StructNames(ds[..|ds| - 1]) + (if d.StructD? then {d.structDecl.name} else {})
  {
    var front := ds[..|ds| - 1];
    var d := ds[|ds| - 1];
    forall x
      ensures x in StructNames(ds) <==> x in StructNames(front) + (if d.StructD? then {d.structDecl.name} else {})
    {
      if x in StructNames(ds) {
        var i :| 0 <= i < |ds| && ds[i].StructD? && ds[i].structDecl.name == x;
        if i < |front| { assert front[i] == ds[i]; }
      }
      if x in StructNames(front) {
        var i :| 0 <= i < |front| && front[i].StructD? && front[i].structDecl.name == x;
        assert ds[i] == front[i];
      }
    }
  }

  /// A completed declaration visit records a size only for a struct, under
  /// its name, and keeps the declaration's kind.
  lemma AllocDeclRecords(structSizes: map<string, nat>, d: Decl, counter: int)
    ensures var a := AllocDecl(structSizes, d, counter);
      a.0.Ok? ==>
        && a.0.value.StructD? == d.StructD?
        && a.1 == if d.StructD? then structSizes[d.structDecl.name := a.0.value.structDecl.size] else structSizes
  {
  }

  /// A struct that is the last of its name in `ds` and not `ds`' last
  /// declaration is the last of its name in the front, and the last
  /// declaration does not rename it.
  lemma LastStructInFront(ds: seq<Decl>, i: nat)
    requires i < |ds| - 1 && ds[i].StructD? && LastStructNamed(ds, i)
    ensures ds[..|ds| - 1][i] == ds[i] && LastStructNamed(ds[..|ds| - 1], i)
    ensures ds[|ds| - 1].StructD? ==> ds[|ds| - 1].structDecl.name != ds[i].structDecl.name
  {
    var front := ds[..|ds| - 1];
    forall j | i < j < |front| && front[j].StructD?
      ensures front[j].structDecl.name != front[i].structDecl.name
    {
      assert front[j] == ds[j];
    }
  }

  /// One declaration fails exactly when it is a struct whose fields cannot be laid out.
  lemma AllocDeclFault(structSizes: map<string, nat>, d: Decl, counter: int)
    ensures AllocDecl(structSizes, d, counter).0.Err? <==>
      d.StructD? && !Layout.Layable(Layout.Sizes(AllocFields(structSizes, d.structDecl.varDecls, counter).0))
  {
  }

  /// The pass reaches the struct at `i` (everything before it succeeded) and
  /// cannot lay out its fields.
  ghost predicate FaultsAt(structSizes: map<string, nat>, ds: seq<Decl>, counter: int, i: nat)
    requires i < |ds|
  {
    && ds[i].StructD?
    && var pre := AllocDecls(structSizes, ds[..i], counter);
       pre.0.Ok? && !Layout.Layable(Layout.Sizes(AllocFields(pre.1, ds[i].structDecl.varDecls, pre.2).0))
  }

  /// A completed pass faults nowhere: it fails exactly when some struct it
  /// reaches has fields it cannot lay out (none, or one of size 0).
  lemma {:induction false} AllocDeclsFaults(structSizes: map<string, nat>, ds: seq<Decl>, counter: int)
    ensures AllocDecls(structSizes, ds, counter).0.Err? <==>
      exists i :: 0 <= i < |ds| && FaultsAt(structSizes, ds, counter, i)
  {
    if |ds| > 0 {
      var n := |ds| - 1;
      var front := ds[..n];
      AllocDeclsFaults(structSizes, front, counter);
      forall i | 0 <= i < n
        ensures FaultsAt(structSizes, ds, counter, i) <==> FaultsAt(structSizes, front, counter, i)
      {
        assert front[..i] == ds[..i];
        assert front[i] == ds[i];
      }
      var pre := AllocDecls(structSizes, front, counter);
      var all := AllocDecls(structSizes, ds, counter);
      if pre.0.Err? {
        assert all == pre;
        var i :| 0 <= i < n && FaultsAt(structSizes, front, counter, i);
        assert FaultsAt(structSizes, ds, counter, i);
      } else {
        AllocDeclFault(pre.1, ds[n], pre.2);
        assert all.0.Err? <==> AllocDecl(pre.1, ds[n], pre.2).0.Err?;
        assert FaultsAt(structSizes, ds, counter, n) <==> AllocDecl(pre.1, ds[n], pre.2).0.Err?;
        assert forall i :: 0 <= i < n ==> !FaultsAt(structSizes, ds, counter, i);
      }
    }
  }

  /// A program whose globals and struct fields are not locals leaves the
  /// innermost counter where it was.
  lemma {:induction false} AllocDeclsKeepCounter(structSizes: map<string, nat>, ds: seq<Decl>, counter: int)
    requires forall i :: 0 <= i < |ds| && ds[i].VarD? ==> !ds[i].varDecl.isLocal
    requires forall i, k :: 0 <= i < |ds| && ds[i].StructD? && 0 <= k < |ds[i].structDecl.varDecls| ==>
      !ds[i].structDecl.varDecls[k].isLocal
    ensures AllocDecls(structSizes, ds, counter).2 == counter
  {
    if |ds| > 0 {
      var front := ds[..|ds| - 1];
      assert forall i :: 0 <= i < |front| ==> front[i] == ds[i];
      AllocDeclsKeepCounter(structSizes, front, counter);
      var f := AllocDecls(structSizes, front, counter);
      if f.0.Ok? {
        AllocDeclKeepsCounter(f.1, ds[|ds| - 1], f.2);
      }
    }
  }

  /// A global variable, a prototype, a function or a struct of non-local
  /// fields leaves the innermost counter where it was.
  lemma AllocDeclKeepsCounter(structSizes: map<string, nat>, d: Decl, counter: int)
    requires d.VarD? ==> !d.varDecl.isLocal
    requires d.StructD? ==> forall k :: 0 <= k < |d.structDecl.varDecls| ==> !d.structDecl.varDecls[k].isLocal
    ensures AllocDecl(structSizes, d, counter).2 == counter
  {
  }

  /// The parts the function visit computes make up `AllocFunc`.
  lemma AllocFuncParts(structSizes: map<string, nat>, f: FuncDecl, counter: int,
                       args: seq<VarDecl>, laid: seq<VarDecl>, argOffset: int, block: Block)
    requires args == SizedArgs(structSizes, f.args)
    requires |laid| == |args|
    requires forall i :: 0 <= i < |args| ==> laid[i] == args[i].(offset := 8 + SuffixSum(Layout.Sizes(args), i))
    requires argOffset == Layout.Sum(Layout.Sizes(args), |args|)
    requires block == AllocBlock(structSizes, f.block, counter)
    ensures f.(args := laid, argOffset := argOffset, block := block) == AllocFunc(structSizes, f, counter)
  {
    var g := AllocFunc(structSizes, f, counter);
    assert |g.args| == |laid|;
    forall i | 0 <= i < |laid|
      ensures g.args[i] == laid[i]
    {
    }
    assert g.args == laid;
  }

  /// The parts the struct visit computes make up `AllocStruct`.
  lemma AllocStructParts(structSizes: map<string, nat>, s: StructDecl, counter: int,
                         fields: seq<VarDecl>, after: int, laid: Result<Layout.Laid, Layout.Fault>)
    requires (fields, after) == AllocFields(structSizes, s.varDecls, counter)
    requires laid == Layout.LayoutOf(fields)
    ensures AllocStruct(structSizes, s, counter) ==
      if laid.Err? then (Err(laid.error), after)
      else (Ok(s.(varDecls := laid.value.fields, size := laid.value.size)), after)
  {
  }

  /// A non-empty sequence is its front followed by its last element.
  lemma SplitLast(s: seq<int>)
    requires |s| > 0
    ensures s == s[..|s| - 1] + [s[|s| - 1]]
  {
  }

  /// The pass's state: the counters of the open blocks, innermost last
  /// (the outermost is the frame the pass starts in), and the sizes of the
  /// structs laid out so far.
  class Allocator {
    var counters: seq<int>
    var structSizes: map<string, nat>

    constructor ()
      ensures counters == [0] && structSizes == map[]
    {
      counters := [0];
      structSizes := map[];
    }

    /// The innermost counter.
    function Top(): int
      reads this
      requires |counters| > 0
    {
      counters[|counters| - 1]
    }

    /// The visit of a variable declaration: sizes its type; a local is
    /// placed below the innermost counter, which grows by its size.
    method VisitVarDecl(v: VarDecl) returns (r: VarDecl)
      requires |counters| > 0
      modifies this
      ensures r == AllocVar(structSizes, v, old(Top()))
      ensures counters == old(counters)[..|old(counters)| - 1] + [old(Top()) + Footprint(structSizes, v)]
      ensures structSizes == old(structSizes)
    {
      var t := Sized(structSizes, v.varType);
      r := v.(varType := t);
      if v.isLocal {
        r := r.(offset := -Top() - 8);
        counters := counters[..|counters| - 1] + [Top() + t.size];
      }
    }

    /// The visit of a statement: only declarations and nested blocks are visited.
    method VisitStmt(s: Stmt) returns (r: Stmt)
      requires |counters| > 0
      modifies this
      ensures |counters| == |old(counters)| && counters[..|counters| - 1] == old(counters)[..|old(counters)| - 1]
      ensures (r, Top()) == AllocStmt(structSizes, s, old(Top()))
      ensures structSizes == old(structSizes)
      decreases s, 1
    {
      match s
      case LocalVar(v) =>
        var v' := VisitVarDecl(v);
        r := LocalVar(v');
      case Nested(b) =>
        var b' := VisitBlock(b);
        r := Nested(b');
      case _ =>
        r := s;
    }

    /// The visit of a block: it starts at the enclosing counter, its
    /// statements are visited with it as the innermost block, and it is
    /// closed again; the enclosing counter is unchanged.
    method VisitBlock(b: Block) returns (r: Block)
      requires |counters| > 0
      modifies this
      ensures r == AllocBlock(structSizes, b, old(Top()))
      ensures counters == old(counters) && structSizes == old(structSizes)
      decreases b, 2
    {
      ghost var start := Top();
      counters := counters + [Top()];
      var out: seq<Stmt> := [];
      for i := 0 to |b.stmts|
        invariant |counters| == |old(counters)| + 1 && counters[..|old(counters)|] == old(counters)
        invariant structSizes == old(structSizes)
        invariant (out, Top()) == AllocStmts(structSizes, b.stmts[..i], start)
      {
        assert b.stmts[..i + 1][..i] == b.stmts[..i];
        var s := VisitStmt(b.stmts[i]);
        out := out + [s];
      }
      assert b.stmts[..|b.stmts|] == b.stmts;
      r := Block(out, Top());
      counters := counters[..|counters| - 1];
    }

    /// The visit of a function definition: sizes the parameter types, gives
    /// the parameters their offsets and `argOffset`, and visits the body.
    method VisitFuncDecl(f: FuncDecl) returns (r: FuncDecl)
      requires |counters| > 0
      modifies this
      ensures counters == old(counters) && structSizes == old(structSizes)
      ensures r == f.(args := r.args, argOffset := r.argOffset, block := r.block)
      ensures |r.args| == |f.args|
      ensures forall i :: 0 <= i < |f.args| ==>
        r.args[i] == f.args[i].(varType := Sized(structSizes, f.args[i].varType),
                                offset := 8 + SuffixSum(Layout.Sizes(r.args), i))
      ensures r.argOffset == Layout.Sum(Layout.Sizes(r.args), |r.args|)
      ensures r.block == AllocBlock(structSizes, f.block, old(Top()))
      ensures r == AllocFunc(structSizes, f, old(Top()))
    {
      var args := f.args;
      for i := 0 to |args|
        invariant |args| == |f.args|
        invariant forall k :: 0 <= k < i ==> args[k] == f.args[k].(varType := Sized(structSizes, f.args[k].varType))
        invariant forall k :: i <= k < |args| ==> args[k] == f.args[k]
      {
        args := args[i := args[i].(varType := Sized(structSizes, args[i].varType))];
      }
      var laid, argOffset := ParamOffsets(args);
      assert Layout.Sizes(laid) == Layout.Sizes(args);
      var block := VisitBlock(f.block);
      r := f.(args := laid, argOffset := argOffset, block := block);
      assert args == SizedArgs(structSizes, f.args);
      AllocFuncParts(structSizes, f, old(Top()), args, laid, argOffset, block);
    }

    /// The visit of a struct's fields in order, each from the counter the
    /// previous one left.
    method VisitFields(vs: seq<VarDecl>) returns (fields: seq<VarDecl>)
      requires |counters| > 0
      modifies this
      ensures |counters| == |old(counters)| && structSizes == old(structSizes)
      ensures counters[..|counters| - 1] == old(counters)[..|old(counters)| - 1]
      ensures (fields, Top()) == AllocFields(structSizes, vs, old(Top()))
    {
      ghost var start := Top();
      fields := [];
      for i := 0 to |vs|
        invariant |counters| == |old(counters)| && structSizes == old(structSizes)
        invariant counters[..|counters| - 1] == old(counters)[..|old(counters)| - 1]
        invariant (fields, Top()) == AllocFields(structSizes, vs[..i], start)
      {
        assert vs[..i + 1][..i] == vs[..i];
        var v := VisitVarDecl(vs[i]);
        fields := fields + [v];
      }
      assert vs[..|vs|] == vs;
    }

    /// The visit of a struct declaration: its fields are visited, then laid
    /// out with this pass's sizes, and the struct's size is recorded.
    method VisitStructDecl(s: StructDecl) returns (r: Result<StructDecl, Layout.Fault>)
      requires |counters| > 0
      modifies this
      ensures |counters| == |old(counters)|
      ensures var a := AllocStruct(old(structSizes), s, old(Top()));
        && r == a.0
        && counters == old(counters)[..|old(counters)| - 1] + [a.1]
        && structSizes == if r.Ok? then old(structSizes)[s.name := r.value.size] else old(structSizes)
      ensures s.varDecls == [] ==> r.Err?
      ensures r.Ok? ==>
        var sizes := Layout.Sizes(r.value.varDecls);
        && structSizes == old(structSizes)[s.name := r.value.size]
        && r.value.name == s.name
        && |r.value.varDecls| == |s.varDecls|
        && (forall i :: 0 <= i < |s.varDecls| ==>
              r.value.varDecls[i].varType == Sized(old(structSizes), s.varDecls[i].varType)
              && r.value.varDecls[i].name == s.varDecls[i].name)
        && Layout.Layable(sizes)
        && (forall i :: 0 <= i < |sizes| ==> r.value.varDecls[i].offset == Layout.FieldOffset(sizes, i))
        && r.value.size == Layout.StructSize(sizes)
    {
      ghost var start := Top();
      var fields := VisitFields(s.varDecls);
      SplitLast(counters);
      var laid := Layout.LayoutFields(fields);
      AllocStructParts(old(structSizes), s, start, fields, Top(), laid);
      ghost var a := AllocStruct(old(structSizes), s, start);
      AllocStructMeaning(old(structSizes), s, start);
      if laid.Err? {
        r := Err(laid.error);
        assert r == a.0;
        return;
      }
      r := Ok(s.(varDecls := laid.value.fields, size := laid.value.size));
      assert r == a.0;
      structSizes := structSizes[s.name := laid.value.size];
    }

    /// The visit of one top-level declaration: a dispatch on its kind.
    method VisitDecl(d: Decl) returns (r: Result<Decl, Layout.Fault>)
      requires |counters| > 0
      modifies this
      ensures |counters| == |old(counters)|
      ensures counters[..|counters| - 1] == old(counters)[..|old(counters)| - 1]
      ensures (r, structSizes, Top()) == AllocDecl(old(structSizes), d, old(Top()))
    {
      match d
      case FuncD(f) =>
        var f' := VisitFuncDecl(f);
        r := Ok(FuncD(f'));
      case ProtoD(_) =>
        r := Ok(d);
      case StructD(sd) =>
        var rs := VisitStructDecl(sd);
        if rs.Err? {
          return Err(rs.error);
        }
        r := Ok(StructD(rs.value));
      case VarD(v) =>
        var v' := VisitVarDecl(v);
        r := Ok(VarD(v'));
    }

    /// The visit of the program: its declarations in order; prototypes are
    /// left alone. Every struct it declares has its size recorded.
    method VisitProgram(p: Program) returns (r: Result<Program, Layout.Fault>)
      requires |counters| > 0
      modifies this
      ensures |counters| == |old(counters)|
      ensures var g := AllocDecls(old(structSizes), p.decls, old(Top()));
        && structSizes == g.1
        && counters == old(counters)[..|old(counters)| - 1] + [g.2]
        && (if g.0.Ok? then r == Ok(Program(g.0.value)) else r == Err(g.0.error))
      ensures r.Ok? ==> |r.value.decls| == |p.decls|
      ensures r.Ok? ==> forall i :: 0 <= i < |p.decls| && p.decls[i].StructD? ==>
        p.decls[i].structDecl.name in structSizes
      ensures r.Ok? ==> forall i :: 0 <= i < |p.decls| && p.decls[i].ProtoD? ==> r.value.decls[i] == p.decls[i]
    {
      ghost var start := Top();
      ghost var sizes := structSizes;
      var out: seq<Decl> := [];
      for i := 0 to |p.decls|
        invariant |counters| == |old(counters)|
        invariant counters[..|counters| - 1] == old(counters)[..|old(counters)| - 1]
        invariant (Ok(out), structSizes, Top()) == AllocDecls(sizes, p.decls[..i], start)
      {
        AllocDeclsSnoc(sizes, p.decls, i, start);
        var rd := VisitDecl(p.decls[i]);
        if rd.Err? {
          AllocDeclsStopAtFault(sizes, p.decls, i + 1, start);
          SplitLast(counters);
          return Err(rd.error);
        }
        out := out + [rd.value];
      }
      assert p.decls[..|p.decls|] == p.decls;
      SplitLast(counters);
      AllocDeclsSteps(sizes, p.decls, start);
      AllocDeclsSizes(sizes, p.decls, start);
      return Ok(Program(out));
    }
  }
}
