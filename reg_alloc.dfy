/// The naive register allocator (ir/reg_alloc.h): every virtual register
/// of an instruction list gets a memory slot, 8 bytes apart, in the order in
/// which the registers first appear; if any slot was handed out, one `global`
/// instruction reserving all of them is put in front of the list.
module RegAlloc {
  import opened Ast

  /// The fields of an IR instruction that the allocator touches: its
  /// operation, its register operands by id (a null operand is `None`), its
  /// size text and its label.
  datatype Instruction = Instruction(op: string, registers: seq<Option<int>>, size: string, labelText: string)

  /// The caller's instruction vector, which the allocator extends in place.
  class InstructionList {
    var items: seq<Instruction>

    constructor (items: seq<Instruction>)
      ensures this.items == items
    {
      this.items := items;
    }
  }

  /// The ids of the non-null registers of one operand list, in order.
  function NonNull(regs: seq<Option<int>>): (ids: seq<int>)
    ensures forall x :: x in ids <==> Some(x) in regs
  {
    if |regs| == 0 then []
    else
      var last := regs[|regs| - 1];
      assert forall x :: Some(x) in regs <==> Some(x) in regs[..|regs| - 1] || last == Some(x);
      NonNull(regs[..|regs| - 1]) + (if last.Some? then [last.value] else [])
  }

  /// The ids of the non-null registers of a list of instructions, in the
  /// order the allocator meets them (repeats included).
  function Ids(code: seq<Instruction>): seq<int>
  {
    if |code| == 0 then [] else Ids(code[..|code| - 1]) + NonNull(code[|code| - 1].registers)
  }

  /// The slots the allocator hands out for `ids`: a new id gets the next
  /// multiple of 8, a repeated one keeps its slot.
  function Slots(ids: seq<int>): map<int, int>
  {
    if |ids| == 0 then map[]
    else
      var m := Slots(ids[..|ids| - 1]);
      var x := ids[|ids| - 1];
      if x in m then m else m[x := 8 * |m|]
  }

  /// The distinct ids, in the order of their first occurrence.
  function Distinct(ids: seq<int>): seq<int>
  {
    if |ids| == 0 then []
    else
      var d := Distinct(ids[..|ids| - 1]);
      var x := ids[|ids| - 1];
      if x in d then d else d + [x]
  }

  /// `Distinct` lists each id of `ids` exactly once.
  lemma {:induction false} DistinctMeaning(ids: seq<int>)
    ensures forall x :: x in Distinct(ids) <==> x in ids
    ensures forall a, b :: 0 <= a < b < |Distinct(ids)| ==> Distinct(ids)[a] != Distinct(ids)[b]
  {
    if |ids| > 0 {
      var front := ids[..|ids| - 1];
      DistinctMeaning(front);
      assert forall x :: x in ids <==> x in front || x == ids[|ids| - 1];
    }
  }

  /// The k-th distinct id, in first-occurrence order, gets slot 8k, and
  /// no other id has a slot.
  lemma {:induction false} SlotsMeaning(ids: seq<int>)
    ensures forall x :: x in Slots(ids) <==> x in Distinct(ids)
    ensures |Slots(ids)| == |Distinct(ids)|
    ensures forall k :: 0 <= k < |Distinct(ids)| ==>
      Distinct(ids)[k] in Slots(ids) && Slots(ids)[Distinct(ids)[k]] == 8 * k
  {
    if |ids| > 0 {
      var front := ids[..|ids| - 1];
      var x := ids[|ids| - 1];
      SlotsMeaning(front);
      DistinctMeaning(front);
      var m := Slots(front);
      var d := Distinct(front);
      if x !in d {
        assert Slots(ids) == m[x := 8 * |m|];
        assert Distinct(ids) == d + [x];
        assert m[x := 8 * |m|].Keys == m.Keys + {x};
      }
    }
  }

  /// The allocator's promises: exactly the ids that occur get a slot (so
  /// as many slots as distinct ids); slots are multiples of 8, below 8 times
  /// their number, and pairwise distinct.
  lemma SlotsProperties(ids: seq<int>)
    ensures forall x :: x in Slots(ids) <==> x in ids
    ensures |Slots(ids)| == |Distinct(ids)|
    ensures forall x :: x in Slots(ids) ==> Slots(ids)[x] % 8 == 0 && 0 <= Slots(ids)[x] < 8 * |Slots(ids)|
    ensures forall x, y :: x in Slots(ids) && y in Slots(ids) && x != y ==> Slots(ids)[x] != Slots(ids)[y]
  {
    SlotsMeaning(ids);
    DistinctMeaning(ids);
    var m := Slots(ids);
    var d := Distinct(ids);
    forall x | x in m
      ensures m[x] % 8 == 0 && 0 <= m[x] < 8 * |m|
    {
      assert x in d;
      var k :| 0 <= k < |d| && d[k] == x;
      assert m[x] == 8 * k;
      assert (8 * k) / 8 == k;
    }
    forall x, y | x in m && y in m && x != y
      ensures m[x] != m[y]
    {
      assert x in d && y in d;
      var a :| 0 <= a < |d| && d[a] == x;
      var b :| 0 <= b < |d| && d[b] == y;
      assert a != b;
      assert m[x] == 8 * a && m[y] == 8 * b;
    }
  }

  /// The decimal text of a number (`std::to_string` of a non-negative int).
  function DecimalString(n: nat): (s: string)
    ensures |s| > 0 && forall i :: 0 <= i < |s| ==> '0' <= s[i] <= '9'
  {
    if n < 10 then [Digit(n)] else DecimalString(n / 10) + [Digit(n % 10)]
  }

  function Digit(d: nat): (c: char)
    requires d < 10
    ensures '0' <= c <= '9'
  {
    ('0' as int + d) as char
  }

  /// The number a text of decimal digits denotes.
  function DecimalValue(s: string): nat
    requires forall i :: 0 <= i < |s| ==> '0' <= s[i] <= '9'
  {
    if |s| == 0 then 0 else 10 * DecimalValue(s[..|s| - 1]) + (s[|s| - 1] as int - '0' as int)
  }

  /// The size text reads back as the number written, without a leading zero.
  lemma {:induction false} DecimalRoundTrip(n: nat)
    ensures DecimalValue(DecimalString(n)) == n
    ensures n > 0 ==> DecimalString(n)[0] != '0'
  {
    if n >= 10 {
      DecimalRoundTrip(n / 10);
      var s := DecimalString(n);
      assert s[..|s| - 1] == DecimalString(n / 10);
    }
  }

  /// The instruction that reserves `count` slots.
  function Reservation(count: nat): Instruction
  {
    Instruction("global", [], DecimalString(8 * count), "reg_alloc")
  }

  /// `naive_reg_alloc`: walks every register of every instruction, giving
  /// each new non-null id the next slot; then, if any slot was given,
  /// inserts the reservation at the front of the caller's list.
  method NaiveRegAlloc(code: InstructionList) returns (regToMem: map<int, int>)
    modifies code
    ensures regToMem == Slots(Ids(old(code.items)))
    ensures code.items == if |regToMem| > 0 then [Reservation(|regToMem|)] + old(code.items) else old(code.items)
  {
    regToMem := map[];
    var offset := 0;
    for i := 0 to |code.items|
      invariant code.items == old(code.items)
      invariant regToMem == Slots(Ids(code.items[..i])) && offset == 8 * |regToMem|
    {
      regToMem, offset := SlotRegisters(code.items[i].registers, regToMem, offset, Ids(code.items[..i]));
      IdsSnoc(code.items, i);
    }
    assert code.items[..|code.items|] == code.items;
    if offset > 0 {
      var reservation := Instruction("global", [], DecimalString(offset), "");
      reservation := reservation.(labelText := "reg_alloc");
      code.items := [reservation] + code.items;
    }
  }

  /// The inner loop of `naive_reg_alloc`: gives each new non-null register
  /// of one instruction the next slot, after the registers `walked` so far.
  method SlotRegisters(regs: seq<Option<int>>, m: map<int, int>, offset: int, ghost walked: seq<int>)
    returns (m': map<int, int>, offset': int)
    requires m == Slots(walked) && offset == 8 * |m|
    ensures m' == Slots(walked + NonNull(regs)) && offset' == 8 * |m'|
  {
    m', offset' := m, offset;
    assert NonNull(regs[..0]) == [];
    assert walked + [] == walked;
    for j := 0 to |regs|
      invariant m' == Slots(walked + NonNull(regs[..j])) && offset' == 8 * |m'|
    {
      SlotStep(walked, regs, j);
      if regs[j].Some? && regs[j].value !in m' {
        m' := m'[regs[j].value := offset'];
        offset' := offset' + 8;
      }
    }
    assert regs[..|regs|] == regs;
  }

  /// One register more in the walk of an instruction.
  lemma SlotStep(walked: seq<int>, regs: seq<Option<int>>, j: nat)
    requires j < |regs|
    ensures var m := Slots(walked + NonNull(regs[..j]));
      Slots(walked + NonNull(regs[..j + 1])) ==
        if regs[j].Some? && regs[j].value !in m then m[regs[j].value := 8 * |m|] else m
    ensures var m := Slots(walked + NonNull(regs[..j]));
      regs[j].Some? && regs[j].value !in m ==> |m[regs[j].value := 8 * |m|]| == |m| + 1
  {
    NonNullSnoc(regs, j);
    if regs[j].Some? {
      assert walked + NonNull(regs[..j + 1]) == (walked + NonNull(regs[..j])) + [regs[j].value];
      SlotsSnoc(walked + NonNull(regs[..j]), regs[j].value);
    } else {
      assert NonNull(regs[..j + 1]) == NonNull(regs[..j]);
    }
  }

  lemma NonNullSnoc(regs: seq<Option<int>>, j: nat)
    requires j < |regs|
    ensures NonNull(regs[..j + 1]) == NonNull(regs[..j]) + (if regs[j].Some? then [regs[j].value] else [])
  {
    assert regs[..j + 1][..j] == regs[..j];
  }

  lemma IdsSnoc(code: seq<Instruction>, i: nat)
    requires i < |code|
    ensures Ids(code[..i + 1]) == Ids(code[..i]) + NonNull(code[i].registers)
  {
    assert code[..i + 1][..i] == code[..i];
  }

  /// Appending one id to the walk extends the slots as the loop body does.
  lemma SlotsSnoc(ids: seq<int>, x: int)
    ensures Slots(ids + [x]) == if x in Slots(ids) then Slots(ids) else Slots(ids)[x := 8 * |Slots(ids)|]
    ensures x !in Slots(ids) ==> |Slots(ids)[x := 8 * |Slots(ids)|]| == |Slots(ids)| + 1
  {
    assert (ids + [x])[..|ids|] == ids;
    if x !in Slots(ids) {
      assert Slots(ids)[x := 8 * |Slots(ids)|].Keys == Slots(ids).Keys + {x};
    }
  }

  /// Slots are handed out exactly when some instruction has a non-null register.
  lemma AnySlot(code: seq<Instruction>)
    ensures |Slots(Ids(code))| > 0 <==> exists i, x :: 0 <= i < |code| && Some(x) in code[i].registers
  {
    if |Slots(Ids(code))| > 0 {
      SlotHasRegister(code);
    }
    if exists i, x :: 0 <= i < |code| && Some(x) in code[i].registers {
      var i, x :| 0 <= i < |code| && Some(x) in code[i].registers;
      RegisterHasSlot(code, i, x);
    }
  }

  lemma SlotHasRegister(code: seq<Instruction>)
    requires |Slots(Ids(code))| > 0
    ensures exists i, x :: 0 <= i < |code| && Some(x) in code[i].registers
  {
    var ids := Ids(code);
    assert |ids| == 0 ==> Slots(ids) == map[];
    IdsMeaning(code);
    var x := ids[0];
    assert x in ids;
    var i :| 0 <= i < |code| && Some(x) in code[i].registers;
  }

  lemma RegisterHasSlot(code: seq<Instruction>, i: nat, x: int)
    requires i < |code| && Some(x) in code[i].registers
    ensures x in Slots(Ids(code))
  {
    var ids := Ids(code);
    IdsMeaning(code);
    assert x in ids;
    SlotsMeaning(ids);
    DistinctMeaning(ids);
  }

  /// The list after allocation: the reservation, if any, then the original
  /// instructions in their order, and the reservation's size reads back as
  /// 8 times the number of slots; nothing is inserted when no register occurs.
  lemma AllocatedList(old_items: seq<Instruction>, items: seq<Instruction>, m: map<int, int>)
    requires m == Slots(Ids(old_items))
    requires items == if |m| > 0 then [Reservation(|m|)] + old_items else old_items
    ensures |m| > 0 ==>
      && |items| == |old_items| + 1 && items[1..] == old_items
      && items[0].op == "global" && items[0].labelText == "reg_alloc" && items[0].registers == []
      && DecimalValue(items[0].size) == 8 * |m|
    ensures |m| == 0 ==> items == old_items
  {
    DecimalRoundTrip(8 * |m|);
  }

  /// An id occurs in the walk exactly when some instruction has it as a register.
  lemma {:induction false} IdsMeaning(code: seq<Instruction>)
    ensures forall x :: x in Ids(code) <==> exists i :: 0 <= i < |code| && Some(x) in code[i].registers
  {
    if |code| > 0 {
      var front := code[..|code| - 1];
      IdsMeaning(front);
      forall x
        ensures x in Ids(code) <==> exists i :: 0 <= i < |code| && Some(x) in code[i].registers
      {
        if x in Ids(code) {
          if x in Ids(front) {
            var i :| 0 <= i < |front| && Some(x) in front[i].registers;
            assert code[i] == front[i];
          }
        } else {
          forall i | 0 <= i < |code|
            ensures Some(x) !in code[i].registers
          {
            if i < |front| {
              assert code[i] == front[i];
            }
          }
        }
      }
    }
  }
}
