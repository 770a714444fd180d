# A verified model of the C-Compiler back end

This project models the passes of a small C compiler (ryansenn/C-Compiler)
that run after parsing. They are:

- **name analysis**: a stack of scopes binds every use of a name to its
  innermost declaration. The pass rejects a redeclaration in the same scope
  and a use of an undeclared name. It reconciles a function definition with
  an earlier prototype, sizes types (int and char take 8 bytes here) and lays
  out struct fields.
- **memory allocation**: the back end's sizes (int 4, char 1, pointer 8),
  struct layout, parameter offsets above the return address, and local offsets
  below a running counter per open block. Sibling blocks share space.
- **naive register allocation**: every virtual register gets an 8-byte
  memory slot, in first-occurrence order. When any slot was handed out, a
  `global` reservation instruction is put in front of the code.
- **x86 emission**: integer literals, `+`, `return`, function labels and the
  program's header and entry trampoline. Registers come from a pool of free
  registers and go back to it.
- **the AST**: the node types the passes share, the defaults their
  constructors fill in, and the tree printer's indentation state.

The files are:

- `ast.dfy`: the AST as datatypes, and the printer's indentation as a class.
- `layout.dfy`: the struct field layout formula that both layout passes use.
- `name_analysis.dfy`: the scope functions, and an `Analyzer` class whose
  fields are the scope stack, a symbol arena and the current function.
- `memory_allocation.dfy`: the allocation functions, and an `Allocator` class
  holding the block counters and the struct sizes.
- `reg_alloc.dfy`: the slot assignment, and the allocator method that extends
  the caller's instruction list in place.
- `code_gen.dfy`: specification functions giving the lines, pool and outcome
  of each visit, and a `Generator` class whose methods append to the output
  and update the pool, proved equal to those functions.

Symbols live in an arena of handles. A shared `Symbol` object in the C++
becomes a handle. Rewriting the arena entry when a prototype is upgraded to a
definition is seen by every holder of the handle, as with the shared pointer.

## Model

| member | source | states |
|---|---|---|
| Ast.NewType | parser/ast.h:59 | a new type has the token, no indirection, no array dimensions and no symbol |
| Ast.NewReturn | parser/ast.h:145 | a bare `Return()` has no value |
| Ast.NewReturnOf | parser/ast.h:146 | `Return(e)` carries `e` |
| Ast.NewIf | parser/ast.h:157 | the two-argument `If` has no else branch |
| Ast.NewIfElse | parser/ast.h:158 | the three-argument `If` has the else branch |
| Ast.NewTokenUnary | parser/ast.h:107 | a unary built from a token holds the token alternative, not a cast |
| Ast.NewCastUnary | parser/ast.h:108 | a unary built from a type holds the cast alternative, not a token |
| Ast.Dedented | parser/ast.h:236-240 | `decr` yields a prefix, one unit shorter, or unchanged when shorter than a unit |
| Ast.DedentUndoesIndent | parser/ast.h:232-240 | `decr` after `incr` restores the indentation; `incr` adds 4 characters |
| Ast.DedentsUndoIndents | parser/ast.h:232-240 | n `decr`s after n `incr`s restore the indentation |
| Ast.PrintIndent.constructor | parser/ast.h:228-229 | the printer starts with empty indentation |
| Ast.PrintIndent.Incr | parser/ast.h:232-234 | the indentation grows by one unit |
| Ast.PrintIndent.Decr | parser/ast.h:236-240 | the indentation loses one unit when it has one |
| Layout.Align | semantic/name_analysis.cpp:27-29 | the result is a multiple of the alignment, at least the offset, and below offset + alignment |
| Layout.AlignIsLeast | semantic/name_analysis.cpp:27-29 | no multiple of the alignment at or above the offset is below `align`'s result |
| Layout.MaxSize | memory/memory_allocation.cpp:15-16 | the running maximum bounds every size so far, and is positive when they are |
| Layout.MaxSizeAttained | memory/memory_allocation.cpp:15-16 | the running maximum is one of the sizes seen so far |
| Layout.EndCoversSum | memory/memory_allocation.cpp:18-21 | the running offset is at least the sum of the sizes laid out |
| Layout.FieldEndsBeforeEnd | memory/memory_allocation.cpp:18-21 | every field ends before the running offset of any later step |
| Layout.FieldsDisjoint | memory/memory_allocation.cpp:18-21 | field byte ranges do not overlap and offsets increase in declaration order |
| Layout.StructSizeBounds | memory/memory_allocation.cpp:24-25 | the struct size is a multiple of the largest field, holds every field, and is at least the sum of sizes |
| Layout.LayoutFields | memory/memory_allocation.cpp:9-25 | equals the layout formula `LayoutOf`; fails exactly when some field has size 0 or there is no field (`% 0`); otherwise every offset is aligned to its field's size, fields are disjoint and ordered, and the size is padded and covers the fields |
| Layout.PlaceFields | memory/memory_allocation.cpp:15-25 | the offset loop fails exactly when a field has size 0 or there is none; otherwise it produces the offsets and size of the formula |
| Layout.LaidOutIsLayout | memory/memory_allocation.cpp:9-25 | a layout matching the formula is `LayoutOf`'s result and is well placed |
| Layout.LayoutOf | memory/memory_allocation.cpp:9-25 | the layout fails exactly when the sizes cannot be laid out; otherwise it matches the formula |
| Layout.LaidOutProperties | memory/memory_allocation.cpp:9-25 | a layout that matches the formula has aligned, disjoint fields and a padded size |
| MemoryAllocation.SizeTablesAgree | memory/memory_allocation.cpp:113-135 | int is 4, char 1, any pointer 8; the two passes' tables agree except on plain int and char |
| MemoryAllocation.Sized | memory/memory_allocation.cpp:113-135 | visiting a type changes only its size, which follows the table with the struct's recorded size |
| MemoryAllocation.AllocatedLocals | memory/memory_allocation.cpp:52-69 | the k-th local of a block sits at `-(start + sizes before it) - 8`; the block's counter ends at start plus all its locals' sizes |
| MemoryAllocation.SuccessiveLocals | memory/memory_allocation.cpp:63-69 | each local's offset is the previous one's minus the previous one's size; two successive locals' byte ranges are disjoint exactly when the later one is no larger |
| MemoryAllocation.NestedBlockShares | memory/memory_allocation.cpp:52-61 | a nested block starts at the enclosing counter and leaves it unchanged |
| MemoryAllocation.SuffixSumSplit | memory/memory_allocation.cpp:39-45 | the sizes before and after a parameter make up the total |
| MemoryAllocation.ParamOffsets | memory/memory_allocation.cpp:37-45 | parameter i sits at 8 plus the sizes of parameters i.. onwards; `arg_offset` is the sum of all sizes |
| MemoryAllocation.ParamLayout | memory/memory_allocation.cpp:39-45 | each parameter lies its size above the next; the last sits at 8 + its size; the first at 8 + `arg_offset` |
| MemoryAllocation.ParamsOrdered | memory/memory_allocation.cpp:39-42 | an earlier parameter lies above a later one by at least its own size |
| MemoryAllocation.Allocator.VisitVarDecl | memory/memory_allocation.cpp:63-69 | a local is placed below the innermost counter, which grows by its size; outer counters are untouched |
| MemoryAllocation.Allocator.VisitStmt | memory/memory_allocation.cpp:56-58 | a statement visit matches `AllocStmt` and touches only the innermost counter |
| MemoryAllocation.Allocator.VisitBlock | memory/memory_allocation.cpp:52-61 | the block starts at the enclosing counter, its statements are allocated from there, and the counters are restored |
| MemoryAllocation.Allocator.VisitFuncDecl | memory/memory_allocation.cpp:29-50 | only args, `arg_offset` and the body change; parameter offsets and `arg_offset` follow the reverse walk; the body is allocated from the current counter |
| MemoryAllocation.AllocFields | memory/memory_allocation.cpp:13-14 | each field keeps its name and gets its type sized; a field not flagged local is otherwise unchanged; the counter only grows, and stays put when no field is local |
| MemoryAllocation.AllocStructMeaning | memory/memory_allocation.cpp:8-26 | a struct without fields fails; otherwise its fields keep their names, get sized types and the layout's offsets, and the struct gets the padded size |
| MemoryAllocation.AllocDeclFault | memory/memory_allocation.cpp:8-26 | one declaration fails exactly when it is a struct whose visited fields cannot be laid out |
| MemoryAllocation.AllocDeclsSteps | memory/memory_allocation.cpp:140-144 | each declaration's result is its own visit with the sizes and counter the earlier ones left; prototypes are unchanged; the count is kept |
| MemoryAllocation.AllocDeclsSizes | memory/memory_allocation.cpp:140-144 | a completed pass records a size for exactly the structs it declares, and the last struct of a name has its laid-out size |
| MemoryAllocation.AllocDeclsFaults | memory/memory_allocation.cpp:140-144 | the pass fails exactly when it reaches a struct whose fields cannot be laid out |
| MemoryAllocation.AllocDeclsKeepCounter | memory/memory_allocation.cpp:140-144 | with no local globals or fields, the innermost counter ends where it started |
| MemoryAllocation.Allocator.VisitFields | memory/memory_allocation.cpp:13-14 | the fields are visited in order as `AllocFields`; only the innermost counter changes, to the counter after them |
| MemoryAllocation.Allocator.VisitStructDecl | memory/memory_allocation.cpp:8-26 | result and innermost counter are `AllocStruct`'s, the outer counters are unchanged, and the size is recorded exactly on success; a struct without fields fails; otherwise fields get sized types and the layout's offsets, and the struct the padded size |
| MemoryAllocation.Allocator.VisitDecl | memory/memory_allocation.cpp:140-144 | one declaration is visited as `AllocDecl`; the outer counters are unchanged |
| MemoryAllocation.Allocator.VisitProgram | memory/memory_allocation.cpp:140-144 | the result, struct sizes and innermost counter are the fold `AllocDecls` over the declarations; the outer counters are unchanged; each struct's size is recorded and prototypes are unchanged |
| RegAlloc.NonNull | ir/reg_alloc.h:17-20 | an id is listed exactly when it occurs as a non-null register |
| RegAlloc.DistinctMeaning | ir/reg_alloc.h:15-22 | the first-occurrence list holds each id that occurs, once |
| RegAlloc.SlotsMeaning | ir/reg_alloc.h:15-22 | the k-th distinct id gets slot 8k, and no other id has a slot |
| RegAlloc.SlotsProperties | ir/reg_alloc.h:15-22 | exactly the occurring ids get slots; slots are multiples of 8, below 8 times their number, and pairwise distinct |
| RegAlloc.IdsMeaning | ir/reg_alloc.h:15-22 | an id is walked exactly when some instruction has it as a register |
| RegAlloc.DecimalString | ir/reg_alloc.h:26-31 | the size text is a non-empty string of decimal digits |
| RegAlloc.DecimalRoundTrip | ir/reg_alloc.h:26-31 | the size text reads back as the number, without a leading zero |
| RegAlloc.NaiveRegAlloc | ir/reg_alloc.h:10-37 | the map is the slot assignment of the walked registers; the list gains the reservation in front exactly when a slot was given |
| RegAlloc.SlotRegisters | ir/reg_alloc.h:16-21 | one instruction's registers extend the slot map as one walk |
| RegAlloc.AnySlot | ir/reg_alloc.h:24 | the reservation is inserted exactly when some instruction has a non-null register |
| RegAlloc.AllocatedList | ir/reg_alloc.h:24-36 | the new list is the reservation (op `global`, label `reg_alloc`, size 8 times the slot count) followed by the old list |
| NameAnalysis.LookupIsInnermost | semantic/name_analysis.cpp:7-14 | `get` finds nothing exactly when no scope binds the name, and otherwise the innermost binding |
| NameAnalysis.LookupAfterBind | semantic/name_analysis.cpp:23-25 | after `put`, `get` of that name returns the new binding, other names and outer scopes are unaffected |
| NameAnalysis.SizeTable | semantic/name_analysis.cpp:227-247 | pointers and plain int and char are 8, void 0, a struct its declaration's size |
| NameAnalysis.GlobalStructTag | semantic/name_analysis.cpp:217-225 | a found tag names a struct symbol of the arena |
| NameAnalysis.ResolveTypeMeaning | semantic/name_analysis.cpp:216-248 | a type fails exactly when it is a struct type whose tag is not declared globally (error on its token); otherwise only symbol and size change |
| NameAnalysis.ResolveExprMeaning | semantic/name_analysis.cpp:87-115 | an expression resolves exactly when every used name is bound; on success only symbols change and each is the innermost binding; on failure the error names an unbound use |
| NameAnalysis.ResolveExprsMeaning | semantic/name_analysis.cpp:87-97 | the same for an argument list |
| NameAnalysis.CheckSignature | semantic/name_analysis.cpp:32-55 | no error exactly when return type, argument count and argument types agree; the first disagreement in that order is reported |
| NameAnalysis.DeclaredStep | semantic/name_analysis.cpp:208-214 | declaring one more top-level declaration keeps the program scope and the redeclaration rule |
| NameAnalysis.RedeclaredStep | semantic/name_analysis.cpp:31-55 | the same when the name is already bound, to a prototype the definition replaces |
| NameAnalysis.FreshStep | semantic/name_analysis.cpp:208-214 | the same when the name is not bound yet |
| NameAnalysis.Analyzer.Get | semantic/name_analysis.cpp:7-14 | returns the innermost binding |
| NameAnalysis.Analyzer.GetLocal | semantic/name_analysis.cpp:16-21 | finds a name exactly when the innermost scope binds it, and then agrees with `get` |
| NameAnalysis.Analyzer.Put | semantic/name_analysis.cpp:23-25 | binds in the innermost scope only |
| NameAnalysis.Analyzer.NewSymbol | semantic/name_analysis.cpp:57 | a new symbol is appended to the arena, the scopes are unchanged |
| NameAnalysis.Analyzer.FindStructTag | semantic/name_analysis.cpp:217-225 | the scan of the global scope finds the struct tag |
| NameAnalysis.Analyzer.VisitType | semantic/name_analysis.cpp:216-248 | the visit equals `ResolveType` |
| NameAnalysis.Analyzer.VisitVarDecl | semantic/name_analysis.cpp:99-105 | a name bound in the innermost scope is an error; otherwise the type is resolved and a VAR symbol bound; nothing else of the declaration changes |
| NameAnalysis.Analyzer.VisitStmt | semantic/name_analysis.cpp:150-206 | only a declaration changes the scopes; an expression statement, a `return` value and the conditions of `if` and `while` resolve as `ResolveExpr` and fail with its error; a return records the current function; `break` and `continue` are unchanged; apart from symbols, sizes and the return's function the statement is unchanged |
| NameAnalysis.Analyzer.VisitInScope | semantic/name_analysis.cpp:180-197 | as `ResolveInScope`: an `if` branch or loop body is visited in its own scope, popped again; only what resolution fills in changes |
| NameAnalysis.Analyzer.VisitStmts | semantic/name_analysis.cpp:172-178 | statements in order, as `ResolveStmts`; the outer scopes are untouched and the innermost keeps its bindings; each result is its statement with only resolved parts changed |
| NameAnalysis.Analyzer.VisitBlock | semantic/name_analysis.cpp:172-178 | as `ResolveBlock`: the block's statements in a scope of their own; the scopes are restored; each statement changes only in what resolution fills in |
| NameAnalysis.Analyzer.VisitVarDecls | semantic/name_analysis.cpp:63-66 | the list is visited as `DeclareVars`; on success its names are new to the innermost scope and pairwise distinct, each is bound in order to a new VAR symbol, and each declaration changes only in its resolved type and local flag |
| NameAnalysis.Analyzer.Declare | semantic/name_analysis.cpp:57-58 | a new symbol is added and bound in the innermost scope |
| NameAnalysis.Analyzer.PushScope | semantic/name_analysis.cpp:61 | an empty scope is pushed |
| NameAnalysis.Analyzer.PopScope | semantic/name_analysis.cpp:71 | the innermost scope is popped |
| NameAnalysis.Analyzer.Rebind | semantic/name_analysis.cpp:50-51 | the symbol behind a handle is replaced; scopes are unchanged |
| NameAnalysis.Analyzer.VisitScoped | semantic/name_analysis.cpp:61-71 | as `ResolveScoped`: parameters then statements in one new scope, popped afterwards; each parameter gets its type as resolved before the scope; the visit fails when a parameter type does not resolve or two parameters share a name |
| NameAnalysis.Analyzer.VisitFuncDecl | semantic/name_analysis.cpp:31-72 | as `ResolveFunc`: a bound non-prototype name is a redeclaration; a prototype must match and is upgraded; on success `FuncDefined`: the return type and parameter types are resolved in the enclosing state, the function is bound to a new FUNC symbol and becomes current, and its body's statements change only in what resolution fills in |
| NameAnalysis.Analyzer.VisitFunProto | semantic/name_analysis.cpp:74-85 | as `ResolveProto`: a bound name is a redeclaration; on success `ProtoDeclared`: a PROTO symbol is bound to the name, the return type is kept as written, and the parameters get their resolved types in a scope of their own, with distinct names |
| NameAnalysis.Analyzer.VisitFields | semantic/name_analysis.cpp:124-147 | as `ResolveFields`: succeeds exactly when there is a field, every field type resolves to a non-zero size and the names are distinct; then `FieldsLaid`: each field gets its resolved type (8 for a pointer, int or char) and the layout's offset, and the struct the padded size; no fields is the `% 0` fault |
| NameAnalysis.Analyzer.VisitStructDecl | semantic/name_analysis.cpp:117-148 | as `ResolveStruct`: a visible tag is a redeclaration; on success `StructDeclared`: a STRUCT symbol bound to the tag holds the struct with its fields laid out in the state where the tag is already bound |
| NameAnalysis.Analyzer.VisitDecl | semantic/name_analysis.cpp:208-214 | as `ResolveDecl`: an error is the error of the visit the declaration's kind calls for, and success is `DeclResolved` for that kind; each declaration binds its key under a new symbol, and only a definition may find it bound, and only to a prototype |
| NameAnalysis.Analyzer.VisitProgram | semantic/name_analysis.cpp:208-214 | as `ResolveProgram`, and `ProgramFolds`: the program fails exactly when some declaration fails in the state the earlier ones left, and then with that error; on success each declaration is its own visit at its point; the scopes are restored; a key is declared at most twice, and then as a prototype followed by its definition |
| NameAnalysis.Analyzer.VisitDeclInProgram | semantic/name_analysis.cpp:210-212 | one step of the program loop keeps the program-scope invariant |
| NameAnalysis.Analyzer.VisitIf | semantic/name_analysis.cpp:180-190 | as `ResolveStmt` on an `if`: the condition, then each branch in a scope of its own; the current function is kept |
| NameAnalysis.Analyzer.VisitWhile | semantic/name_analysis.cpp:192-197 | as `ResolveStmt` on a `while`: the condition, then the body in a scope of its own |
| NameAnalysis.Analyzer.VisitDefinition | semantic/name_analysis.cpp:56-72 | as `ResolveDefinition`: the return type is visited, a FUNC symbol bound and made current, then parameters and body in one scope |
| NameAnalysis.Analyzer.VisitDecls | semantic/name_analysis.cpp:210-212 | the declarations in order as `ResolveDecls`, stopping at the first error; a key is declared at most twice, and then as a prototype followed by its definition |
| NameAnalysis.DeclareVar | semantic/name_analysis.cpp:99-105 | declaring a variable keeps the outer scopes, only adds to the innermost scope and the arena, and keeps the current function |
| NameAnalysis.ResolveStmt | semantic/name_analysis.cpp:150-206 | a statement visit keeps the outer scopes, only adds to the innermost scope and the arena, and keeps the current function |
| NameAnalysis.ResolveInScope | semantic/name_analysis.cpp:182-184 | a statement visited in a scope of its own leaves the scopes and the current function as they were and only adds symbols |
| NameAnalysis.ResolveStmts | semantic/name_analysis.cpp:174-176 | statements in order keep the outer scopes and the current function, and give one result per statement |
| NameAnalysis.ResolveBlock | semantic/name_analysis.cpp:172-178 | a block leaves the scopes and the current function as they were and only adds symbols |
| NameAnalysis.DeclareVars | semantic/name_analysis.cpp:63-66 | declarations in order keep the outer scopes and the current function, and give one result per declaration |
| NameAnalysis.ResolveScoped | semantic/name_analysis.cpp:61-71 | parameters and statements in a pushed scope leave the scopes and the current function as they were; one result per parameter and per statement |
| NameAnalysis.ResolveFunc | semantic/name_analysis.cpp:31-72 | a function definition changes only the innermost scope |
| NameAnalysis.ResolveDefinition | semantic/name_analysis.cpp:56-72 | the definition proper changes only the innermost scope |
| NameAnalysis.ResolveProto | semantic/name_analysis.cpp:74-85 | a prototype changes only the innermost scope |
| NameAnalysis.ResolveFields | semantic/name_analysis.cpp:124-147 | the fields' scope is popped again: scopes and current function are restored |
| NameAnalysis.ResolveStruct | semantic/name_analysis.cpp:117-148 | a struct declaration changes only the innermost scope |
| NameAnalysis.ResolveDecl | semantic/name_analysis.cpp:211 | a top-level declaration changes only the innermost scope |
| NameAnalysis.ResolveDecls | semantic/name_analysis.cpp:210-212 | declarations in order change only the innermost scope and give one result per declaration |
| NameAnalysis.ResolveProgram | semantic/name_analysis.cpp:208-214 | the program scope is popped again, and there is one result per declaration |
| NameAnalysis.DeclareVarMeaning | semantic/name_analysis.cpp:99-105 | a variable is declared exactly when its name is not in the innermost scope and its type resolves; otherwise the redeclaration or the undeclared struct is reported on the type's token; on success the declaration carries its resolved type, is the arena's new VAR symbol and what `get` returns for its name, and every other name keeps its binding |
| NameAnalysis.ResolvePlainStmtMeaning | semantic/name_analysis.cpp:199-206 | an expression statement or returned value resolves exactly when every name it uses is bound; an error names an unbound use; on success the state is unchanged, every use carries its binding and a return records the current function; `break` and `continue` pass unchanged |
| NameAnalysis.ResolveLocalVarMeaning | semantic/name_analysis.cpp:99-105 | a local declaration succeeds exactly when its name is new to the innermost scope and its type resolves; a redeclaration is reported on the type's token; on success the variable is the new VAR symbol that `get` returns for its name |
| NameAnalysis.ResolveCompoundStmtMeaning | semantic/name_analysis.cpp:172-197 | an unbound name in an `if` or `while` condition is the error; on success the condition carries its bindings, the `then` branch or loop body is its own visit in a new innermost scope, an `else` branch is its own visit in a new scope over the state the `then` branch left once its scope is popped, a nested block's statements are visited in order in a new scope, and the scopes are restored |
| NameAnalysis.ResolveStmtsSteps | semantic/name_analysis.cpp:174-176 | on success each statement's result is its own visit in the state the statements before it left |
| NameAnalysis.ResolveStmtsFaults | semantic/name_analysis.cpp:174-176 | the statements fail exactly when some statement fails in the state the ones before it left, and then with that statement's error |
| NameAnalysis.ResolveStmtErases | semantic/name_analysis.cpp:150-206 | resolution changes a statement only in the symbols, sizes and function it fills in |
| NameAnalysis.ResolveBlockErases | semantic/name_analysis.cpp:172-178 | resolution changes a block only in what it fills in |
| NameAnalysis.DeclareVarsMeaning | semantic/name_analysis.cpp:63-66 | in an inner scope a list of declarations succeeds exactly when its names are new and distinct and its types resolve, and each gets the type resolved before the list |
| NameAnalysis.ResolveScopedMeaning | semantic/name_analysis.cpp:61-71 | a scope fails with its parameters' error or else its statements' error; its parameters succeed exactly when their types resolve and their names are distinct; on success each parameter has its resolved type and the local flag, and each statement only gains what resolution fills in |
| NameAnalysis.ResolveTypeInInner | semantic/name_analysis.cpp:216-225 | declarations in an inner scope do not change how a type resolves, as tags are looked up in the global scope |
| NameAnalysis.ResolveDefinitionMeaning | semantic/name_analysis.cpp:56-72 | a definition fails with the return type's error, fails when a parameter type fails or two parameters share a name, and on success is `FuncDefined`; for an arbitrary state the parameter-type clauses exclude a global definition whose own binding would hide a parameter's struct tag (`HidesTag`), which `ResolveFunc` never reaches |
| NameAnalysis.ResolveDefinitionFaults | semantic/name_analysis.cpp:56-66 | the error cases of a definition: the return type's error, a failing parameter type, a repeated parameter name |
| NameAnalysis.ResolveDefinitionDefines | semantic/name_analysis.cpp:56-72 | a definition that succeeds is `FuncDefined`: bound to a new FUNC symbol that is current, types resolved in the enclosing state, the prior prototype's symbol upgraded |
| NameAnalysis.SignatureConflictMeaning | semantic/name_analysis.cpp:36-48 | there is no conflict exactly when the signatures match, and a conflict is about the return type, the argument count or an argument type |
| NameAnalysis.ResolveFuncMeaning | semantic/name_analysis.cpp:31-72 | a bound non-prototype name is a redeclaration on the return type's token; a mismatching prototype gives the first signature conflict; a failing return type, parameter type or a repeated parameter name fails; on success `FuncDefined` over the binding found, and every parameter type is the one resolved in the enclosing state |
| NameAnalysis.ResolveFuncFaults | semantic/name_analysis.cpp:31-66 | the error cases of a definition: a redeclaration, the first signature conflict with a prototype, the return type's error, a parameter type that does not resolve, a repeated parameter name |
| NameAnalysis.ResolveFuncDefines | semantic/name_analysis.cpp:31-72 | a definition that succeeds is `FuncDefined` over the binding found, and every parameter carries the type resolved in the enclosing state |
| NameAnalysis.ResolveProtoMeaning | semantic/name_analysis.cpp:74-85 | a name bound in the innermost scope is a prototype redeclaration; otherwise the prototype is declared exactly when its parameter types resolve and their names are distinct, and then it is `ProtoDeclared`, every parameter carrying the type resolved in the enclosing state |
| NameAnalysis.ResolveFieldsMeaning | semantic/name_analysis.cpp:124-147 | no fields is the `% 0` fault; the fields lay out exactly when each type resolves to a non-zero size and names are distinct; a plain `void` field is the `% 0` fault; on success `FieldsLaid` |
| NameAnalysis.ResolveTypeAfterTag | semantic/name_analysis.cpp:216-225 | binding a struct tag changes only how `struct` of that name resolves at the global scope, to the new symbol and the struct's size |
| NameAnalysis.ResolveStructMeaning | semantic/name_analysis.cpp:117-148 | a visible tag is a struct redeclaration; otherwise the struct is declared exactly when its fields lay out in the state with the tag bound, fails with the fields' error otherwise, and on success is `StructDeclared` |
| NameAnalysis.ResolveDeclMeaning | semantic/name_analysis.cpp:211 | a declaration fails with the error of the visit its kind calls for, and on success is `DeclResolved` |
| NameAnalysis.ResolveDeclsSteps | semantic/name_analysis.cpp:210-212 | on success each declaration's result is its own visit in the state the declarations before it left |
| NameAnalysis.ResolveDeclsFaults | semantic/name_analysis.cpp:210-212 | the declarations fail exactly when one fails in the state the ones before it left, and then with its error |
| NameAnalysis.ProgramFoldsOf | semantic/name_analysis.cpp:208-214 | the program's result is that fold over its declarations in a pushed scope |
| CodeGen.Take | x86/code_gen.cpp:53 | `getRegister` fails exactly on an empty pool; otherwise the register comes from the pool and leaves it |
| CodeGen.OperatorBalance | x86/code_gen.cpp:74-113 | the result register is fresh from the pool, the operands go back, and the step completes exactly when the pool is non-empty and `+` has two operands; operators other than `+` emit nothing |
| CodeGen.ExprPoolBalance | x86/code_gen.cpp:51-114 | an expression gives back everything except the register it yields; only primaries and binaries yield one; others emit nothing |
| CodeGen.CompletesIff | x86/code_gen.cpp:70-114 | an expression completes exactly when no `+` meets a null operand and the pool holds enough registers |
| CodeGen.PlusEmission | x86/code_gen.cpp:71-80 | `+` emits the operands' code, then `mov r, r1` and `add r, r2`, with three distinct registers |
| CodeGen.PrimaryEmission | x86/code_gen.cpp:51-68 | a primary takes one register and writes `mov r, value` only for an integer literal |
| CodeGen.ReturnEmission | x86/code_gen.cpp:39-49 | `return` ends with `ret`, moves its value's register into `rax` and gives it back |
| CodeGen.SilentStmts | x86/code_gen.cpp:116-131 | `if`, `while`, `break`, `continue` and local declarations emit nothing and keep the pool |
| CodeGen.StmtPoolShrinks | x86/code_gen.cpp:31-49 | statements only ever take registers out of the pool |
| CodeGen.StmtsPoolShrinks | x86/code_gen.cpp:31-37 | the same for a block's statements |
| CodeGen.DeclsSilentIff | x86/code_gen.cpp:23-29 | declarations emit nothing exactly when none is a function definition |
| CodeGen.ProgramFraming | x86/code_gen.cpp:7-21 | the file opens with the header; a completed run ends with the trampoline and has the declarations' lines in between |
| CodeGen.Generator.Emit | x86/code_gen.cpp:9 | one line is appended to the output |
| CodeGen.Generator.GetRegister | x86/code_gen.cpp:53 | the pool loses the register `Take` gives |
| CodeGen.Generator.FreeRegister | x86/code_gen.cpp:110-111 | a register goes back to the pool; a null one changes nothing |
| CodeGen.Generator.VisitExpr | x86/code_gen.cpp:51-114 | output and pool change as `GenExpr` says |
| CodeGen.Generator.VisitBinary | x86/code_gen.cpp:70-114 | output and pool change as `GenExpr` says for a binary |
| CodeGen.Generator.VisitPrimary | x86/code_gen.cpp:51-68 | output and pool change as `GenExpr` says for a primary |
| CodeGen.Generator.Operator | x86/code_gen.cpp:74-113 | output and pool change as `GenOperator` says |
| CodeGen.Generator.VisitStmt | x86/code_gen.cpp:39-49 | output and pool change as `GenStmt` says |
| CodeGen.Generator.VisitBlock | x86/code_gen.cpp:31-37 | output and pool change as `GenStmts` says |
| CodeGen.Generator.VisitDecl | x86/code_gen.cpp:23-29 | output and pool change as `GenDecl` says |
| CodeGen.Generator.VisitProgram | x86/code_gen.cpp:7-21 | output and pool change as `GenProgram` says |

## Left out

- File output (`std::ofstream`) and `std::cout` are modelled as a sequence of lines; the struct offsets printed at memory/memory_allocation.cpp:20 are not modelled.
- Exception texts are left out; each semantic error is a constructor carrying the token it reports.
- The headers of the passes (name_analysis.h, memory_allocation.h) are not part of this model. The memory pass's initial frame is taken to be one counter at 0. The register pool and `Register` type are not defined in the modelled sources; the pool's policy is a parameter `pick`.
- `getRegister` is not defined in the modelled sources; on an empty pool it is modelled as a `PoolExhausted` fault.
- `freeRegister` of a null register is modelled as a no-op. `NO_REGISTER` and a null register are treated alike.
- Dereferencing a null register in the emitter is modelled as a `NullRegister` fault. Lines written before it stay in the output.
- A `% 0` in the layout formula (a struct with no fields, or a field of size 0) is undefined behaviour in C++. It is modelled as a `ModuloByZero` fault.
- The `size`, `offset`, `isLocal` and `argOffset` fields are used by the passes. They are not defined in the modelled sources; they are modelled as datatype fields.
- MemoryAllocation.Sized: the struct case reads the size recorded for the struct's name. The C++ reads it through the type's symbol, and a missing symbol is a null dereference; here the type keeps its size.
- MemoryAllocation.Allocator.VisitStmt: only declarations and nested blocks are visited. This matches the empty visits at memory/memory_allocation.cpp:71-112.
- The `isLocal` flag of block locals is set outside the passes modelled here. The memory pass reads it as given.
- NameAnalysis.Analyzer.VisitType: a struct type is resolved only through the tag in the global scope. A symbol already present on the type is ignored.
- NameAnalysis.Analyzer.VisitFunProto: the prototype's return type is not visited, as in the source.
- A redeclared function or prototype is reported on its return type's token.
- NameAnalysis.SameType: the prototype check compares `Type`s (semantic/name_analysis.cpp:36,45) with an operator not defined in the modelled sources; the comparison is taken to be structural on the token kind, name, pointer count and array dimensions, ignoring the symbol and size.
- Shared AST nodes are modelled as values written back to the tree; the arena stands in for shared symbols. Aliasing of nodes between two holders is not captured.
- The instruction constructor of the IR is not defined in the modelled sources. RegAlloc.NaiveRegAlloc builds the reservation with an empty label and then sets the label `reg_alloc`.
- The tree printer's output (std/print.c and the printer's visit methods) is not modelled; only its indentation state is.
- Integers are unbounded; 32-bit overflow of offsets and sizes is not modelled.
- CodeGen.Take: the register `getRegister` hands out is modelled as a function `pick` of the set of free registers alone (`PicksFromPool`). A pool whose choice depends on its history or order is not captured; the pool is not defined in the modelled sources.
