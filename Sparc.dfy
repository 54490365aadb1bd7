/**
  The `sparc` calling convention: the bytes of ST(1)..ST(items-1) fill a
  register area of six `int`s; the argument that crosses the end of that area
  is split, and it and everything after it go to a stack region whose size is
  found by a pre-scan before it is allocated. The function is then called with
  the six register words. `intSize` is sizeof(int); the register area is not
  initialised (its initial contents are `junk`); `after` stands for whatever
  memory follows an argument's string buffer, which the tail copy can reach.
  The layout is stated for a register area of any positive `capacity` bytes;
  sparc_pray's is `6 * intSize`.
*/
module Sparc {
  import opened Bytes
  import opened Results

  /** The call image: the six register words' bytes, and the stack region
      (empty when none is allocated). */
  datatype Call = Call(registers: Buffer, spill: Buffer)

  /** The byte at offset `k` of an argument's string buffer; past the
      buffer's end it is the memory that follows it. */
  function ByteAt(arg: Buffer, after: nat -> byte, k: nat): byte
  {
    if k < |arg| then arg[k] else after(k - |arg|)
  }

  /** `n` bytes read from offset `from` of an argument's string buffer. */
  function ReadFrom(arg: Buffer, after: nat -> byte, from: nat, n: nat): (r: Buffer)
    ensures |r| == n
  {
    seq(n, t requires 0 <= t < n => ByteAt(arg, after, from + t))
  }

  /** Byte `t` of a read is the byte at `from + t`. */
  lemma ReadFromAt(arg: Buffer, after: nat -> byte, from: nat, n: nat, t: nat)
    requires t < n
    ensures ReadFrom(arg, after, from, n)[t] == ByteAt(arg, after, from + t)
  {
  }

  /** The straddling argument: the first whose running total reaches the end
      of the register area. */
  function Straddler(args: seq<Buffer>, capacity: nat): (s: nat)
    requires 0 < capacity <= TotalLen(args)
    ensures s < |args| && PrefixLen(args, s) < capacity <= PrefixLen(args, s + 1)
    ensures PrefixLen(args, s + 1) == PrefixLen(args, s) + |args[s]|
  {
    var s := FirstAbove(args, capacity - 1);
    PrefixLenNext(args, s);
    s
  }

  /** How many bytes of argument `s`, which starts at its running total, fit
      before the end of the register area. */
  function Fitting(args: seq<Buffer>, s: nat, capacity: nat): (k: nat)
    requires s < |args| && PrefixLen(args, s) <= capacity <= PrefixLen(args, s) + |args[s]|
    ensures k <= |args[s]|
  {
    capacity - PrefixLen(args, s)
  }

  /** How far argument `s` reaches past the end of the register area. */
  function Overhang(args: seq<Buffer>, s: nat, capacity: nat): (ov: nat)
    requires s < |args| && capacity <= PrefixLen(args, s) + |args[s]|
  {
    PrefixLen(args, s) + |args[s]| - capacity
  }

  /** The image the code builds for the arguments `args` and a register area
      of `capacity` bytes: the stack region starts with `ov` bytes read from
      offset `ov` of the straddling argument, where `ov` is how far that
      argument overflows the registers. */
  function Layout(capacity: nat, args: seq<Buffer>, junk: Buffer, after: nat -> byte): Call
    requires 0 < capacity == |junk|
  {
    var total := TotalLen(args);
    if total <= capacity then
      Call(Concat(args) + junk[total..], [])
    else
      var s := Straddler(args, capacity);
      var ov := Overhang(args, s, capacity);
      Call(Concat(args)[..capacity], ReadFrom(args[s], after, ov, ov) + Concat(args[s + 1..]))
  }

  /** The split the code evidently intends: the straddling argument's bytes
      that did not fit continue on the stack. */
  function LayoutIntended(capacity: nat, args: seq<Buffer>, junk: Buffer): Call
    requires 0 < capacity == |junk|
  {
    var total := TotalLen(args);
    if total <= capacity then
      Call(Concat(args) + junk[total..], [])
    else
      var s := Straddler(args, capacity);
      Call(Concat(args)[..capacity], args[s][Fitting(args, s, capacity)..] + Concat(args[s + 1..]))
  }

  /** The image sparc_pray builds, as the code is written. */
  function SparcImage(intSize: nat, st: seq<Buffer>, junk: Buffer, after: nat -> byte): Call
    requires 0 < intSize && |junk| == 6 * intSize
  {
    Layout(6 * intSize, Placed(st, 1), junk, after)
  }

  /** The image sparc_pray would build with the intended split. */
  function SparcImageIntended(intSize: nat, st: seq<Buffer>, junk: Buffer): Call
    requires 0 < intSize && |junk| == 6 * intSize
  {
    LayoutIntended(6 * intSize, Placed(st, 1), junk)
  }

  /** The pre-scan: bytes needed on the stack by ST(from)..ST(items-1), on top
      of `needed`. */
  method PreScan(st: seq<Buffer>, from: nat, needed: nat) returns (stackNeeded: nat)
    ensures stackNeeded == needed + TotalLen(Placed(st, from))
  {
    ghost var rest := Placed(st, from);
    stackNeeded := needed;
    var j := from;
    while j < |st|
      invariant from <= j && j - from <= |rest|
      invariant stackNeeded == needed + PrefixLen(rest, j - from)
    {
      PrefixLenNext(rest, j - from);
      stackNeeded := stackNeeded + |st[j]|;
      j := j + 1;
    }
    assert rest[..|rest|] == rest;
  }

  /** Bytes of the straddling argument that go to the stack: how far the
      running total `checkLen` passes the end of the register area. */
  function Excess(checkLen: nat, capacity: nat): nat
  {
    if checkLen > capacity then checkLen - capacity else 0
  }

  /** The stack region, allocated once its size is known: the straddling
      argument's tail as the code takes it (`ov` bytes from offset `ov`, where
      `ov` is `checkLen - capacity`), then ST(i)..ST(items-1) whole, back to
      back. Also returns where the argument index ends. */
  method FillStack(arg: Buffer, checkLen: nat, capacity: nat, st: seq<Buffer>, i: nat,
                   stackNeeded: nat, after: nat -> byte)
    returns (spill: Buffer, next: nat)
    requires stackNeeded == Excess(checkLen, capacity) + TotalLen(Placed(st, i))
    ensures spill == ReadFrom(arg, after, Excess(checkLen, capacity), Excess(checkLen, capacity)) + Concat(Placed(st, i))
    ensures next == if i < |st| then |st| else i
  {
    ghost var ov := Excess(checkLen, capacity);
    ghost var pieces := [ReadFrom(arg, after, ov, ov)] + Placed(st, i);
    StackPieces(ReadFrom(arg, after, ov, ov), st, i);
    var onStack := new byte[stackNeeded];
    ghost var blank := onStack[..];
    var cursor: nat := 0;
    assert pieces[..0] == [];
    if checkLen > capacity {
      var argLen := checkLen - capacity;
      CopyNext(pieces, blank, 0, ReadFrom(arg, after, argLen, argLen), onStack, cursor);
      cursor := argLen;
    } else {
      PrefixLenNext(pieces, 0);
    }
    next, cursor := CopyRest(st, i, pieces, blank, onStack, cursor);
    assert pieces[..|pieces|] == pieces;
    spill := onStack[..];
  }

  /** The pieces of the stack region: the tail, then the arguments from
      ST(i) on. */
  lemma StackPieces(tail: Buffer, st: seq<Buffer>, i: nat)
    ensures var pieces := [tail] + Placed(st, i);
      && pieces[1..] == Placed(st, i)
      && Concat(pieces) == tail + Concat(Placed(st, i))
      && TotalLen(pieces) == |tail| + TotalLen(Placed(st, i))
  {
    var pieces := [tail] + Placed(st, i);
    assert pieces[1..] == Placed(st, i);
    ConcatCons(pieces);
  }

  /** The second loop of the stack fill: ST(i)..ST(items-1) copied whole
      after the tail. */
  method CopyRest(st: seq<Buffer>, i: nat, ghost pieces: seq<Buffer>, ghost blank: Buffer,
                  buf: array<byte>, cursor0: nat)
    returns (next: nat, cursor: nat)
    requires |pieces| > 0 && pieces[1..] == Placed(st, i)
    requires |blank| == buf.Length && TotalLen(pieces) <= buf.Length
    requires Filled(pieces, blank, 1, cursor0, buf[..])
    modifies buf
    ensures next == if i < |st| then |st| else i
    ensures Filled(pieces, blank, |pieces|, cursor, buf[..])
  {
    next := i;
    cursor := cursor0;
    while next < |st|
      invariant i <= next && next - i < |pieces|
      invariant Filled(pieces, blank, next - i + 1, cursor, buf[..])
    {
      assert st[next] == pieces[next - i + 1];
      PrefixLenNext(pieces, next - i + 1);
      PrefixLenMono(pieces, next - i + 2, |pieces|);
      CopyNext(pieces, blank, next - i + 1, st[next], buf, cursor);
      cursor := cursor + |st[next]|;
      next := next + 1;
    }
  }

  /** The register area up to the straddling argument's split point is the
      prefix of the concatenation. */
  lemma RegistersAtSplit(args: seq<Buffer>, s: nat, capacity: nat)
    requires s < |args| && PrefixLen(args, s) <= capacity <= PrefixLen(args, s) + |args[s]|
    requires capacity <= TotalLen(args)
    ensures Concat(args)[..capacity] == Concat(args[..s]) + args[s][..capacity - PrefixLen(args, s)]
  {
    ConcatSplit(args, s);
    ConcatCons(args[s..]);
    assert args[s..][1..] == args[s + 1..];
    var pre := Concat(args[..s]);
    var whole := pre + (args[s] + Concat(args[s + 1..]));
    assert Concat(args) == whole;
    assert whole[..capacity] == pre + args[s][..capacity - |pre|];
  }

  /** The arguments after ST(s+1) are ST(s+2).., and their total completes
      the running total. */
  lemma RestAfterStraddler(st: seq<Buffer>, s: nat)
    requires s < |Placed(st, 1)|
    ensures Placed(st, 1)[s + 1..] == Placed(st, s + 2)
    ensures TotalLen(Placed(st, 1)) == PrefixLen(Placed(st, 1), s + 1) + TotalLen(Placed(st, s + 2))
  {
    PlacedSuffix(st, 1, s + 1);
    ConcatSplit(Placed(st, 1), s + 1);
  }

  /** The registers before any argument reached the stack: the arguments
      before ST(n+1) copied whole, and a full register area only when nothing
      is left to place. */
  ghost predicate Running(args: seq<Buffer>, junk: Buffer, capacity: nat, n: nat, nbytes: nat, regs: Buffer)
  {
    && Filled(args, junk, n, nbytes, regs)
    && (nbytes == capacity ==> TotalLen(args) == capacity)
  }

  /** The state once ST(s+1) has straddled the end of the registers: its head
      completes the registers, and the stack region holds the code's tail
      and ST(s+2).. whole, and is not empty. */
  ghost predicate Spilled(st: seq<Buffer>, after: nat -> byte, capacity: nat, s: nat, regs: Buffer, spill: Buffer)
  {
    var args := Placed(st, 1);
    && s < |args|
    && PrefixLen(args, s) < capacity <= PrefixLen(args, s) + |args[s]|
    && var ov := Overhang(args, s, capacity);
    && regs == Concat(args[..s]) + args[s][..capacity - PrefixLen(args, s)]
    && spill == ReadFrom(args[s], after, ov, ov) + Concat(Placed(st, s + 2))
    && ov + TotalLen(Placed(st, s + 2)) > 0
  }

  /** ST(i) fits in the registers whole. */
  lemma RegisterStep(st: seq<Buffer>, junk: Buffer, capacity: nat, i: nat, nbytes: nat, regs: Buffer)
    requires 1 <= i < |st| && |junk| == capacity
    requires Running(Placed(st, 1), junk, capacity, i - 1, nbytes, regs)
    requires nbytes + |st[i]| <= capacity
    requires nbytes + |st[i]| == capacity ==> TotalLen(Placed(st, i + 1)) == 0
    ensures Running(Placed(st, 1), junk, capacity, i, nbytes + |st[i]|, Overwrite(regs, nbytes, st[i]))
  {
    var args := Placed(st, 1);
    assert st[i] == args[i - 1];
    FillNext(args, junk, i - 1, nbytes, regs);
    RestAfterStraddler(st, i - 1);
  }

  /** ST(i) straddles the end of the registers, and the stack region built
      for it is not empty. */
  lemma SpillStep(st: seq<Buffer>, junk: Buffer, after: nat -> byte, capacity: nat, i: nat, nbytes: nat,
                  regs: Buffer, spill: Buffer)
    requires 1 <= i < |st| && |junk| == capacity
    requires Running(Placed(st, 1), junk, capacity, i - 1, nbytes, regs)
    requires nbytes + |st[i]| >= capacity
    requires var ov := Excess(nbytes + |st[i]|, capacity);
      && ov + TotalLen(Placed(st, i + 1)) > 0
      && spill == ReadFrom(st[i], after, ov, ov) + Concat(Placed(st, i + 1))
    ensures nbytes < capacity
    ensures Spilled(st, after, capacity, i - 1, Overwrite(regs, nbytes, st[i][..capacity - nbytes]), spill)
  {
    var args := Placed(st, 1);
    assert st[i] == args[i - 1];
    PrefixLenNext(args, i - 1);
    RestAfterStraddler(st, i - 1);
    FillStep(Concat(args[..i - 1]), st[i][..capacity - nbytes], junk);
    assert junk[capacity..] == [];
  }

  /** One pass of sparc_pray's outer loop: ST(i) is copied into the
      registers, and if the registers are then full the rest of the
      arguments are measured and, when there are any bytes left over, copied
      to the stack region. `spilledAt` names the straddling argument once the
      stack region is built. */
  method PackArgument(st: seq<Buffer>, ghost junk: Buffer, after: nat -> byte, pseu: array<byte>,
                      i: nat, nbytes: nat, stackNeeded: nat)
    returns (i': nat, nbytes': nat, stackNeeded': nat, spill: Buffer, ghost spilledAt: Option<nat>)
    requires 1 <= i < |st| && stackNeeded == 0 && 0 < pseu.Length == |junk|
    requires Running(Placed(st, 1), junk, pseu.Length, i - 1, nbytes, pseu[..])
    modifies pseu
    ensures i < i' <= |st|
    ensures spilledAt.None? ==>
      Running(Placed(st, 1), junk, pseu.Length, i' - 1, nbytes', pseu[..]) && spill == [] && stackNeeded' == 0
    ensures spilledAt.Some? ==> i' == |st| && Spilled(st, after, pseu.Length, spilledAt.value, pseu[..], spill)
  {
    var capacity := pseu.Length;
    var arg := st[i];
    var argLen := |arg|;
    i' := i + 1;
    var checkLen := nbytes + argLen;
    stackNeeded' := stackNeeded;
    if checkLen > capacity {
      stackNeeded' := checkLen - capacity;
      argLen := argLen - stackNeeded';
    }
    ghost var regs := pseu[..];
    CopyInto(arg[..argLen], pseu, nbytes);
    nbytes' := checkLen;
    spill := [];
    spilledAt := None;
    if checkLen >= capacity {
      stackNeeded' := PreScan(st, i', stackNeeded');
      if stackNeeded' > 0 {
        spill, i' := FillStack(arg, checkLen, capacity, st, i', stackNeeded', after);
        SpillStep(st, junk, after, capacity, i, nbytes, regs, spill);
        spilledAt := Some(i - 1);
        return;
      }
    }
    assert arg[..argLen] == arg;
    RegisterStep(st, junk, capacity, i, nbytes, regs);
  }

  /** The outer loop of sparc_pray over ST(1)..ST(items-1). Ends either with
      every argument in the registers or with the stack region built. */
  method FillArguments(st: seq<Buffer>, ghost junk: Buffer, after: nat -> byte, pseu: array<byte>)
    returns (nbytes: nat, spill: Buffer, ghost spilledAt: Option<nat>)
    requires 0 < pseu.Length && pseu[..] == junk
    modifies pseu
    ensures spilledAt.None? ==> Running(Placed(st, 1), junk, pseu.Length, |Placed(st, 1)|, nbytes, pseu[..]) && spill == []
    ensures spilledAt.Some? ==> Spilled(st, after, pseu.Length, spilledAt.value, pseu[..], spill)
  {
    ghost var args := Placed(st, 1);
    var i := 1;
    nbytes := 0;
    var stackNeeded := 0;
    spill := [];
    spilledAt := None;
    assert args[..0] == [];
    while i < |st|
      invariant 1 <= i
      invariant spilledAt.None? ==> Running(args, junk, pseu.Length, i - 1, nbytes, pseu[..]) && spill == [] && stackNeeded == 0
      invariant spilledAt.Some? ==> i == |st| && Spilled(st, after, pseu.Length, spilledAt.value, pseu[..], spill)
      decreases |st| - i
    {
      i, nbytes, stackNeeded, spill, spilledAt := PackArgument(st, junk, after, pseu, i, nbytes, stackNeeded);
    }
  }

  /** With every argument in the registers, the image is the registers as
      filled and no stack region. */
  lemma LayoutFilled(capacity: nat, args: seq<Buffer>, junk: Buffer, after: nat -> byte, nbytes: nat, regs: Buffer)
    requires 0 < capacity == |junk|
    requires Running(args, junk, capacity, |args|, nbytes, regs)
    ensures Layout(capacity, args, junk, after) == Call(regs, [])
  {
    assert args[..|args|] == args;
  }

  /** Once the stack region is built, the image is the registers and the
      stack region as filled. */
  lemma LayoutSpilled(capacity: nat, st: seq<Buffer>, junk: Buffer, after: nat -> byte, s: nat, regs: Buffer, spill: Buffer)
    requires 0 < capacity == |junk|
    requires Spilled(st, after, capacity, s, regs, spill)
    ensures Layout(capacity, Placed(st, 1), junk, after) == Call(regs, spill)
  {
    var args := Placed(st, 1);
    PrefixLenNext(args, s);
    RestAfterStraddler(st, s);
    FirstAboveUnique(args, capacity - 1, s);
    assert Straddler(args, capacity) == s;
    RegistersAtSplit(args, s, capacity);
    var c := Layout(capacity, args, junk, after);
    assert c.registers == regs;
    assert c.spill == spill;
  }

  /** sparc_pray: the call image it builds is SparcImage. */
  method SparcPray(intSize: nat, st: seq<Buffer>, junk: Buffer, after: nat -> byte) returns (call: Call)
    requires 0 < intSize && |junk| == 6 * intSize
    ensures call == SparcImage(intSize, st, junk, after)
  {
    var capacity := 6 * intSize;
    var pseu := new byte[capacity](b requires 0 <= b < capacity => junk[b]);
    assert pseu[..] == junk;
    var nbytes, spill, spilledAt := FillArguments(st, junk, after, pseu);
    if spilledAt.Some? {
      LayoutSpilled(capacity, st, junk, after, spilledAt.value, pseu[..], spill);
    } else {
      LayoutFilled(capacity, Placed(st, 1), junk, after, nbytes, pseu[..]);
    }
    call := Call(pseu[..], spill);
  }

  /** The image when the arguments overflow the registers. */
  lemma LayoutOverflow(capacity: nat, args: seq<Buffer>, junk: Buffer, after: nat -> byte)
    requires 0 < capacity == |junk|
    requires TotalLen(args) > capacity
    ensures var s := Straddler(args, capacity);
      var ov := Overhang(args, s, capacity);
      Layout(capacity, args, junk, after) ==
        Call(Concat(args)[..capacity], ReadFrom(args[s], after, ov, ov) + Concat(args[s + 1..]))
  {
  }

  /** The register area holds the first bytes of the concatenation, up to
      its total; any bytes beyond the total are the junk the area started
      with. */
  lemma SparcRegisters(capacity: nat, args: seq<Buffer>, junk: Buffer, after: nat -> byte, b: nat)
    requires 0 < capacity == |junk|
    ensures var r := Layout(capacity, args, junk, after).registers;
      && |r| == capacity
      && (b < |r| && b < TotalLen(args) ==> r[b] == Concat(args)[b])
      && (TotalLen(args) <= b < |r| ==> r[b] == junk[b])
  {
  }

  /** The stack region holds exactly the bytes that did not fit, and there is
      none when the arguments fit in the registers. */
  lemma SparcSpillSize(capacity: nat, args: seq<Buffer>, junk: Buffer, after: nat -> byte)
    requires 0 < capacity == |junk|
    ensures var total := TotalLen(args);
      var spill := Layout(capacity, args, junk, after).spill;
      && |spill| == (if total > capacity then total - capacity else 0)
      && (spill == [] <==> total <= capacity)
  {
    if TotalLen(args) > capacity {
      ConcatSplit(args, Straddler(args, capacity) + 1);
    }
  }

  /** The arguments after the straddling one continue the concatenation on
      the stack: past the straddling tail, stack byte `b` is byte `capacity +
      b` of the concatenation. */
  lemma SparcLaterArgumentsWhole(capacity: nat, args: seq<Buffer>, junk: Buffer, after: nat -> byte, b: nat)
    requires 0 < capacity == |junk|
    requires TotalLen(args) > capacity
    ensures var s := Straddler(args, capacity);
      var ov := Overhang(args, s, capacity);
      var spill := Layout(capacity, args, junk, after).spill;
      ov <= b < |spill| ==> capacity + b < TotalLen(args) && spill[b] == Concat(args)[capacity + b]
  {
    ConcatSplit(args, Straddler(args, capacity) + 1);
  }

  /** The tail the code copies for the straddling argument: the stack
      region starts with `ov` bytes read from offset `ov` of it (see
      ReadFromAt), which run past the argument's end into `after` whenever
      the argument is shorter than `2 * ov`. */
  lemma SparcTailAsWritten(capacity: nat, args: seq<Buffer>, junk: Buffer, after: nat -> byte)
    requires 0 < capacity == |junk|
    requires TotalLen(args) > capacity
    ensures var s := Straddler(args, capacity);
      var ov := Overhang(args, s, capacity);
      var spill := Layout(capacity, args, junk, after).spill;
      ov <= |spill| && spill[..ov] == ReadFrom(args[s], after, ov, ov)
  {
    var s := Straddler(args, capacity);
    var ov := Overhang(args, s, capacity);
    var head := ReadFrom(args[s], after, ov, ov);
    LayoutOverflow(capacity, args, junk, after);
    assert (head + Concat(args[s + 1..]))[..ov] == head;
  }

  /** A concrete input on which the code's tail copy differs from the split
      it intends: with 4-byte ints, an 18-byte argument followed by the bytes
      1..8 puts 6 of those bytes in registers, and the stack region should
      start with 7, 8 but starts with 3, 4. */
  lemma SparcTailMisread(after: nat -> byte)
    ensures var st := [[], seq(18, _ => 0 as byte), [1, 2, 3, 4, 5, 6, 7, 8]];
      var junk := seq(24, _ => 0 as byte);
      && SparcImage(4, st, junk, after).spill == [3, 4]
      && SparcImageIntended(4, st, junk).spill == [7, 8]
  {
    var st: seq<Buffer> := [[], seq(18, _ => 0 as byte), [1, 2, 3, 4, 5, 6, 7, 8]];
    var args := Placed(st, 1);
    assert args == [st[1], st[2]];
    assert args[..1] == [st[1]] && args[..2] == args;
    assert [st[1]][..0] == [];
    assert |st[1]| == 18 && |st[2]| == 8;
    assert TotalLen([st[1]]) == TotalLen([st[1]][..0]) + |st[1]| == 18;
    assert TotalLen(args) == TotalLen(args[..1]) + |args[1]| == 26;
    assert PrefixLen(args, 1) == 18 && PrefixLen(args, 2) == 26;
    FirstAboveUnique(args, 23, 1);
    assert args[2..] == [];
  }

  /** With the intended tail, the register bytes followed by the stack region
      are the whole concatenation whenever the arguments overflow the
      registers; otherwise the registers start with the concatenation and
      there is no stack region. */
  lemma SparcIntendedReassembles(capacity: nat, args: seq<Buffer>, junk: Buffer)
    requires 0 < capacity == |junk|
    ensures var c := LayoutIntended(capacity, args, junk);
      if TotalLen(args) > capacity then c.registers + c.spill == Concat(args)
      else c.spill == [] && c.registers[..TotalLen(args)] == Concat(args)
  {
    if TotalLen(args) > capacity {
      var s := Straddler(args, capacity);
      ConcatAfterSplit(args, s, capacity);
      var whole := Concat(args);
      assert whole == whole[..capacity] + whole[capacity..];
    }
  }

  /** Past the split point, the concatenation is the rest of the straddling
      argument followed by the arguments after it. */
  lemma ConcatAfterSplit(args: seq<Buffer>, s: nat, capacity: nat)
    requires s < |args| && PrefixLen(args, s) <= capacity <= PrefixLen(args, s) + |args[s]|
    ensures capacity <= TotalLen(args)
    ensures Concat(args)[capacity..] == args[s][Fitting(args, s, capacity)..] + Concat(args[s + 1..])
  {
    var k := Fitting(args, s, capacity);
    var pre := Concat(args[..s]);
    var rest := Concat(args[s + 1..]);
    ConcatSplit(args, s);
    ConcatCons(args[s..]);
    assert args[s..][1..] == args[s + 1..];
    assert Concat(args) == pre + (args[s] + rest);
    assert (pre + (args[s] + rest))[capacity..] == args[s][k..] + rest;
  }

  /** The code and the intended split agree, whatever the bytes are, when the
      straddling argument does not overflow or is split exactly in half. */
  lemma SparcAgreesWhenHalved(capacity: nat, args: seq<Buffer>, junk: Buffer, after: nat -> byte)
    requires 0 < capacity == |junk|
    requires TotalLen(args) > capacity ==>
        var s := Straddler(args, capacity);
        var ov := Overhang(args, s, capacity);
        ov == 0 || |args[s]| == 2 * ov
    ensures Layout(capacity, args, junk, after) == LayoutIntended(capacity, args, junk)
  {
    if TotalLen(args) > capacity {
      var s := Straddler(args, capacity);
      var ov := Overhang(args, s, capacity);
      var rest := Concat(args[s + 1..]);
      ReadHalf(args[s], after, ov);
      assert Layout(capacity, args, junk, after) == Call(Concat(args)[..capacity], ReadFrom(args[s], after, ov, ov) + rest);
      assert LayoutIntended(capacity, args, junk) == Call(Concat(args)[..capacity], args[s][Fitting(args, s, capacity)..] + rest);
    }
  }

  /** Reading `ov` bytes from offset `ov` gives the last `ov` bytes, whatever
      follows the argument, when there are none or the argument is `2 * ov`
      bytes long. */
  lemma ReadHalf(arg: Buffer, after: nat -> byte, ov: nat)
    requires ov == 0 || |arg| == 2 * ov
    ensures ReadFrom(arg, after, ov, ov) == arg[|arg| - ov..]
  {
    forall t | 0 <= t < ov
      ensures ReadFrom(arg, after, ov, ov)[t] == arg[|arg| - ov..][t]
    {
      ReadFromAt(arg, after, ov, ov, t);
    }
  }

  /** ST(0) is never placed. */
  lemma SparcIgnoresFirstSlot(intSize: nat, st: seq<Buffer>, junk: Buffer, after: nat -> byte, x: Buffer)
    requires 0 < intSize && |junk| == 6 * intSize
    requires |st| > 0
    ensures SparcImage(intSize, st[0 := x], junk, after) == SparcImage(intSize, st, junk, after)
  {
    assert Placed(st[0 := x], 1) == Placed(st, 1);
  }
}
