/**
  The `cdecl` calling convention: the bytes of ST(1)..ST(items-1) are laid
  out back to back on the stack and the function is called with no declared
  parameters, so it finds them where its own arguments would be. Two
  variants: the block variant measures the total, allocates one region and
  copies forward; the CDECL_ONE_BY_ONE variant allocates and copies one
  argument at a time, last argument first, relying on the stack growing
  downwards.
*/
module Cdecl {
  import opened Bytes

  /** The block variant's stack image: the bytes written, first argument
      first, and the offset from the start of the allocation at which the
      first of them is written (negative when CDECL_SUBTRACT_CURRENT moves
      the start down). */
  datatype Region = Region(bytes: Buffer, origin: int)

  /** Total length of ST(from)..ST(items-1), accumulated from the last
      argument down, as the first loop of the block variant does. */
  method TotalArgLen(st: seq<Buffer>) returns (total: nat)
    ensures total == TotalLen(Placed(st, 1))
  {
    total := 0;
    var i: nat := |st|;
    while i > 1
      invariant i <= |st| && (i >= 1 || |st| == 0)
      invariant total == TotalLen(Placed(st, i))
    {
      i := i - 1;
      PlacedCons(st, i);
      total := total + |st[i]|;
    }
    assert Placed(st, i) == Placed(st, 1);
  }

  /** The block variant of cdecl_pray. `subtractCurrent` is whether
      CDECL_SUBTRACT_CURRENT is defined and `frameOverhead` is
      sizeof ax + sizeof items + sizeof func. */
  method CdeclPray(st: seq<Buffer>, subtractCurrent: bool, frameOverhead: nat) returns (r: Region)
    ensures r.bytes == Concat(Placed(st, 1))
    ensures r.origin == if subtractCurrent then -(frameOverhead as int) else 0
  {
    ghost var args := Placed(st, 1);
    var total := TotalArgLen(st);
    var argOnStack := new byte[total];
    var origin := if subtractCurrent then -(frameOverhead as int) else 0;
    var cursor := 0;
    var i := 1;
    assert args[..0] == [];
    while i < |st|
      invariant 1 <= i && i - 1 <= |args|
      invariant cursor == PrefixLen(args, i - 1) <= total
      invariant argOnStack[..cursor] == Concat(args[..i - 1])
    {
      var arg := st[i];
      assert arg == args[i - 1];
      PrefixLenNext(args, i - 1);
      PrefixLenMono(args, i, |args|);
      assert args[..|args|] == args;
      ghost var prev := argOnStack[..];
      CopyInto(arg, argOnStack, cursor);
      AppendStep(prev, cursor, arg);
      assert argOnStack[..cursor + |arg|] == Concat(args[..i]);
      cursor := cursor + |arg|;
      i := i + 1;
    }
    assert args[..i - 1] == args;
    assert argOnStack[..] == argOnStack[..cursor];
    r := Region(argOnStack[..], origin);
  }

  /** The CDECL_ONE_BY_ONE variant: from the last argument down to ST(1),
      each argument gets a fresh allocation just below the previous one and
      is copied into it. `stack` is the memory from the lowest allocation up
      to where the first one started. */
  method CdeclPrayOneByOne(st: seq<Buffer>) returns (stack: Buffer)
    ensures stack == Concat(Placed(st, 1))
  {
    stack := [];
    var i: nat := |st|;
    while i > 1
      invariant i <= |st| && (i >= 1 || |st| == 0)
      invariant stack == Concat(Placed(st, i))
    {
      i := i - 1;
      var argOnStack := new byte[|st[i]|];
      CopyInto(st[i], argOnStack, 0);
      PlacedCons(st, i);
      assert argOnStack[..] == st[i];
      stack := argOnStack[..] + stack;
    }
    assert Placed(st, i) == Placed(st, 1);
  }

  /** In both variants, byte j of argument ST(k+1) is at the running total of
      the arguments before it, and nothing else is in the region. */
  lemma CdeclLayout(st: seq<Buffer>, k: nat, j: nat)
    requires k < |Placed(st, 1)| && j < |Placed(st, 1)[k]|
    ensures var args := Placed(st, 1);
      && PrefixLen(args, k) + j < |Concat(args)| == TotalLen(args)
      && Concat(args)[PrefixLen(args, k) + j] == args[k][j]
  {
    ConcatAt(Placed(st, 1), k, j);
  }

  /** ST(0) is never placed. */
  lemma CdeclIgnoresFirstSlot(st: seq<Buffer>, x: Buffer)
    requires |st| > 0
    ensures Concat(Placed(st[0 := x], 1)) == Concat(Placed(st, 1))
  {
    assert Placed(st[0 := x], 1) == Placed(st, 1);
  }
}
