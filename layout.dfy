/// Struct field layout, shared by the two layout passes: name analysis
/// (semantic/name_analysis.cpp, which calls `align`) and memory allocation
/// (memory/memory_allocation.cpp, which writes the same formula inline).
/// Each field is aligned to its own size, and the struct's size is the end
/// of the last field aligned to the largest field size.
module Layout {
  import opened Ast

  /// The layout loop's only failure: `% 0`, reached for a struct without
  /// fields (the final alignment to a largest size of 0) or for a field of
  /// size 0. In the C++ this is undefined behaviour (a crash on x86).
  datatype Fault = ModuloByZero

  /// `align(offset, alignment)`: the least multiple of `alignment` that is
  /// at least `offset`.
  function Align(offset: nat, alignment: nat): (r: nat)
    requires alignment > 0
    ensures r % alignment == 0
    ensures offset <= r < offset + alignment
  {
    AlignFacts(offset, alignment);
    offset + ((alignment - (offset % alignment)) % alignment)
  }

  lemma AlignFacts(offset: nat, alignment: nat)
    requires alignment > 0
    ensures var r := offset + ((alignment - (offset % alignment)) % alignment);
      r % alignment == 0 && offset <= r < offset + alignment
  {
    var q, m := offset / alignment, offset % alignment;
    if m == 0 {
      DivMod(alignment, alignment, 1, 0);
    } else {
      DivMod(alignment - m, alignment, 0, alignment - m);
      DivMod(offset + (alignment - m), alignment, q + 1, 0);
    }
  }

  /// Quotient and remainder are determined by `x == q * a + r` with `0 <= r < a`.
  lemma DivMod(x: int, a: int, q: int, r: int)
    requires a > 0 && 0 <= r < a && x == q * a + r
    ensures x / a == q && x % a == r
  {
    var q', r' := x / a, x % a;
    assert x == q' * a + r';
    if q' > q {
      MulMono(q + 1, q', a);
    } else if q' < q {
      MulMono(q' + 1, q, a);
    }
  }

  lemma MulMono(x: int, y: int, a: int)
    requires x <= y && a >= 0
    ensures x * a <= y * a
  {
  }

  /// No multiple of `alignment` at or above `offset` lies below `Align(offset, alignment)`.
  lemma AlignIsLeast(offset: nat, alignment: nat, m: nat)
    requires alignment > 0 && m % alignment == 0 && m >= offset
    ensures Align(offset, alignment) <= m
  {
    var r := Align(offset, alignment);
    var qr, qm := r / alignment, m / alignment;
    if qr > qm {
      MulMono(qm + 1, qr, alignment);
    }
  }

  /// The sizes of the fields, in declaration order.
  function Sizes(fields: seq<VarDecl>): (s: seq<nat>)
    ensures |s| == |fields|
    ensures forall i :: 0 <= i < |fields| ==> s[i] == fields[i].varType.size
  {
    seq(|fields|, i requires 0 <= i < |fields| => fields[i].varType.size)
  }

  /// The first `n` sizes are positive.
  predicate PositiveUpTo(sizes: seq<nat>, n: nat)
    requires n <= |sizes|
  {
    forall i :: 0 <= i < n ==> sizes[i] > 0
  }

  /// The layout is defined (no `% 0`): at least one field, none of size 0.
  predicate Layable(sizes: seq<nat>)
  {
    |sizes| > 0 && PositiveUpTo(sizes, |sizes|)
  }

  /// The running offset after laying out the first `k` fields: the end of field `k - 1`.
  function End(sizes: seq<nat>, k: nat): nat
    requires k <= |sizes| && PositiveUpTo(sizes, k)
    decreases k
  {
    if k == 0 then 0 else Align(End(sizes, k - 1), sizes[k - 1]) + sizes[k - 1]
  }

  /// The offset given to field `i`.
  function FieldOffset(sizes: seq<nat>, i: nat): nat
    requires i < |sizes| && PositiveUpTo(sizes, i + 1)
  {
    Align(End(sizes, i), sizes[i])
  }

  /// The largest of the first `k` sizes (0 for none).
  function MaxSize(sizes: seq<nat>, k: nat): (r: nat)
    requires k <= |sizes|
    ensures forall i :: 0 <= i < k ==> sizes[i] <= r
    ensures k == 0 ==> r == 0
    ensures 0 < k && PositiveUpTo(sizes, k) ==> r > 0
    decreases k
  {
    if k == 0 then 0
    else
      var m := MaxSize(sizes, k - 1);
      if m < sizes[k - 1] then sizes[k - 1] else m
  }

  /// The largest of the first `k` sizes is one of them.
  lemma {:induction false} MaxSizeAttained(sizes: seq<nat>, k: nat)
    requires 0 < k <= |sizes|
    ensures exists i :: 0 <= i < k && MaxSize(sizes, k) == sizes[i]
  {
    if k > 1 && MaxSize(sizes, k - 1) >= sizes[k - 1] {
      MaxSizeAttained(sizes, k - 1);
      var i :| 0 <= i < k - 1 && MaxSize(sizes, k - 1) == sizes[i];
      assert MaxSize(sizes, k) == sizes[i];
    } else {
      assert MaxSize(sizes, k) == sizes[k - 1];
    }
  }

  /// The struct's size: the end of the last field padded to the largest field size.
  function StructSize(sizes: seq<nat>): nat
    requires Layable(sizes)
  {
    Align(End(sizes, |sizes|), MaxSize(sizes, |sizes|))
  }

  /// The sum of the first `k` sizes.
  function Sum(sizes: seq<nat>, k: nat): nat
    requires k <= |sizes|
    decreases k
  {
    if k == 0 then 0 else Sum(sizes, k - 1) + sizes[k - 1]
  }

  /// The running offset never falls behind the sum of the sizes laid out.
  lemma {:induction false} EndCoversSum(sizes: seq<nat>, k: nat)
    requires k <= |sizes| && PositiveUpTo(sizes, k)
    ensures End(sizes, k) >= Sum(sizes, k)
    decreases k
  {
    if k > 0 {
      EndCoversSum(sizes, k - 1);
    }
  }

  /// Field `i` ends no later than the running offset after `k > i` fields.
  lemma {:induction false} FieldEndsBeforeEnd(sizes: seq<nat>, i: nat, k: nat)
    requires i < k <= |sizes| && PositiveUpTo(sizes, k)
    ensures FieldOffset(sizes, i) + sizes[i] <= End(sizes, k)
    decreases k
  {
    if i < k - 1 {
      FieldEndsBeforeEnd(sizes, i, k - 1);
    }
  }

  /// Fields do not overlap, and their offsets increase in declaration order.
  lemma FieldsDisjoint(sizes: seq<nat>, i: nat, j: nat)
    requires i < j < |sizes| && PositiveUpTo(sizes, j + 1)
    ensures FieldOffset(sizes, i) + sizes[i] <= FieldOffset(sizes, j)
    ensures FieldOffset(sizes, i) < FieldOffset(sizes, j)
  {
    FieldEndsBeforeEnd(sizes, i, j);
  }

  /// The struct's size is a multiple of the largest field size, holds every
  /// field, and is at least the sum of the field sizes.
  lemma StructSizeBounds(sizes: seq<nat>)
    requires Layable(sizes)
    ensures StructSize(sizes) % MaxSize(sizes, |sizes|) == 0
    ensures StructSize(sizes) >= Sum(sizes, |sizes|)
    ensures forall i :: 0 <= i < |sizes| ==> FieldOffset(sizes, i) + sizes[i] <= StructSize(sizes)
  {
    EndCoversSum(sizes, |sizes|);
    forall i | 0 <= i < |sizes|
      ensures FieldOffset(sizes, i) + sizes[i] <= StructSize(sizes)
    {
      FieldEndsBeforeEnd(sizes, i, |sizes|);
    }
  }

  /// The result of laying out a struct: its fields with offsets, and its size.
  datatype Laid = Laid(fields: seq<VarDecl>, size: nat)

  /// The struct layout as the pass computes it (the loop is `PlaceFields`):
  /// exactly `LayoutOf`, with every field at a multiple of its size and past
  /// the one before it.
  method LayoutFields(fields: seq<VarDecl>) returns (r: Result<Laid, Fault>)
    ensures r == LayoutOf(fields)
    ensures r.Err? <==> !Layable(Sizes(fields))
    ensures r.Ok? ==> LaidOut(fields, r.value)
    ensures r.Ok? ==> WellPlaced(fields, r.value)
  {
    r := PlaceFields(fields);
    if r.Ok? {
      LaidOutIsLayout(fields, r.value);
    } else {
      assert r.error == ModuloByZero;
    }
  }

  /// The field-offset loop: walks the (already sized) fields in declaration
  /// order, aligns the running offset to each field's size, records it as
  /// the field's offset and advances past the field; finally pads to the
  /// largest field size.
  method PlaceFields(fields: seq<VarDecl>) returns (r: Result<Laid, Fault>)
    ensures r.Err? <==> !Layable(Sizes(fields))
    ensures r.Ok? ==> LaidOut(fields, r.value)
  {
    ghost var sizes := Sizes(fields);
    var maxAlignment := 0;
    var offset := 0;
    var laid := [];
    for i := 0 to |fields|
      invariant PositiveUpTo(sizes, i)
      invariant offset == End(sizes, i)
      invariant maxAlignment == MaxSize(sizes, i)
      invariant |laid| == i
      invariant forall k :: 0 <= k < i ==> laid[k] == fields[k].(offset := FieldOffset(sizes, k))
    {
      ghost var before := laid;
      var alignment := fields[i].varType.size;
      if alignment == 0 {
        return Err(ModuloByZero);
      }
      if maxAlignment < alignment {
        maxAlignment := alignment;
      }
      LayoutStep(sizes, i, offset);
      offset := Align(offset, alignment);
      laid := laid + [fields[i].(offset := offset)];
      forall k | 0 <= k < i + 1
        ensures laid[k] == fields[k].(offset := FieldOffset(sizes, k))
      {
        if k < i {
          assert laid[k] == before[k];
        } else {
          assert k == i;
          assert laid[i] == fields[i].(offset := offset);
        }
      }
      offset := offset + alignment;
    }
    if maxAlignment == 0 {
      return Err(ModuloByZero);
    }
    offset := Align(offset, maxAlignment);
    r := Ok(Laid(laid, offset));
  }

  /// A layout of `fields` is the layout, and it places every field well.
  lemma LaidOutIsLayout(fields: seq<VarDecl>, laid: Laid)
    requires LaidOut(fields, laid)
    ensures LayoutOf(fields) == Ok(laid)
    ensures WellPlaced(fields, laid)
  {
    LaidOutProperties(fields, laid);
    assert LayoutOf(fields).value.fields == laid.fields;
  }

  lemma LayoutStep(sizes: seq<nat>, i: nat, offset: nat)
    requires i < |sizes| && PositiveUpTo(sizes, i) && sizes[i] > 0 && offset == End(sizes, i)
    ensures PositiveUpTo(sizes, i + 1)
    ensures Align(offset, sizes[i]) == FieldOffset(sizes, i)
    ensures Align(offset, sizes[i]) + sizes[i] == End(sizes, i + 1)
  {
  }

  /// The layout as a value: the fields with their offsets and the padded
  /// size, or the `% 0` fault when some field has size 0 or there is none.
  function LayoutOf(fields: seq<VarDecl>): (r: Result<Laid, Fault>)
    ensures r.Err? <==> !Layable(Sizes(fields))
    ensures r.Ok? ==> LaidOut(fields, r.value)
  {
    var sizes := Sizes(fields);
    if !Layable(sizes) then Err(ModuloByZero)
    else
      Ok(Laid(seq(|fields|, i requires 0 <= i < |fields| => fields[i].(offset := FieldOffset(sizes, i))),
              StructSize(sizes)))
  }

  /// Every field of `laid` sits at a multiple of its own size, after the end
  /// of the field before it, and the struct's size is a multiple of its
  /// largest field and covers all of them.
  ghost predicate WellPlaced(fields: seq<VarDecl>, laid: Laid)
    requires Layable(Sizes(fields)) && |laid.fields| == |fields|
  {
    && (forall i :: 0 <= i < |fields| ==> laid.fields[i].offset % fields[i].varType.size == 0)
    && (forall i, j :: 0 <= i < j < |fields| ==>
          laid.fields[i].offset + fields[i].varType.size <= laid.fields[j].offset)
    && laid.size % MaxSize(Sizes(fields), |fields|) == 0
    && laid.size >= Sum(Sizes(fields), |fields|)
  }

  /// `laid` is `fields` with the offsets and size of the layout.
  ghost predicate LaidOut(fields: seq<VarDecl>, laid: Laid)
  {
    && Layable(Sizes(fields))
    && |laid.fields| == |fields|
    && (forall i :: 0 <= i < |fields| ==>
          laid.fields[i] == fields[i].(offset := FieldOffset(Sizes(fields), i)))
    && laid.size == StructSize(Sizes(fields))
  }

  lemma LaidOutProperties(fields: seq<VarDecl>, laid: Laid)
    requires LaidOut(fields, laid)
    ensures forall i :: 0 <= i < |fields| ==> laid.fields[i].offset % fields[i].varType.size == 0
    ensures forall i, j :: 0 <= i < j < |fields| ==>
              laid.fields[i].offset + fields[i].varType.size <= laid.fields[j].offset
    ensures laid.size % MaxSize(Sizes(fields), |fields|) == 0
    ensures laid.size >= Sum(Sizes(fields), |fields|)
  {
    var sizes := Sizes(fields);
    StructSizeBounds(sizes);
    forall i, j | 0 <= i < j < |fields|
      ensures laid.fields[i].offset + fields[i].varType.size <= laid.fields[j].offset
    {
      FieldsDisjoint(sizes, i, j);
    }
  }
}
