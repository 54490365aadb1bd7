/**
  The `hack30` calling convention: the arguments ST(1)..ST(items-1) are
  concatenated into a local array of 30 `int`s and the function is called as
  if it took six ints (when the bytes fit in six words) or thirty ints.
  `intSize` is sizeof(int). The array is not initialised, so its initial
  contents are the parameter `junk`; the call is described by the bytes of
  the words it passes, in index order, rather than performed.
*/
module Hack30 {
  import opened Bytes
  import opened Results

  /** Number of `int` words in `pseu`. */
  const Words := 30
  /** Arity of the short call. */
  const ShortWords := 6

  datatype Outcome =
      /** croak("Too many arguments. ...") while packing ST(argument), the first
          argument that does not fit; the message itself names no argument,
          and the function is not called */
    | TooManyArguments(argument: nat)
      /** the function is called with `arity` ints whose bytes are `words` */
    | Invoke(arity: nat, words: Buffer)

  /** The outcome of hack30_pray, stated on the whole argument list. */
  function Hack30Image(intSize: nat, st: seq<Buffer>, junk: Buffer): Outcome
    requires |junk| == 30 * intSize
  {
    var args := Placed(st, 1);
    var capacity := 30 * intSize;
    var nbytes := TotalLen(args);
    if nbytes > capacity then
      TooManyArguments(1 + FirstAbove(args, capacity))
    else
      var pseu := Concat(args) + junk[nbytes..];
      if nbytes <= 6 * intSize then Invoke(ShortWords, pseu[..6 * intSize])
      else Invoke(Words, pseu)
  }

  /** The packing loop of hack30_pray: copy ST(1), ST(2), ... into `pseu`
      at the running total, checking before each copy that it fits. Stops
      with the index (into ST(1)..) of the first argument that does not fit,
      or with every argument copied. */
  method PackArguments(st: seq<Buffer>, ghost junk: Buffer, pseu: array<byte>)
    returns (nbytes: nat, overflowAt: Option<nat>)
    requires pseu[..] == junk
    modifies pseu
    ensures var args := Placed(st, 1);
      match overflowAt
      case Some(n) =>
        n < |args| && PrefixLen(args, n) <= pseu.Length < PrefixLen(args, n) + |args[n]|
      case None =>
        Filled(args, junk, |args|, nbytes, pseu[..])
  {
    ghost var args := Placed(st, 1);
    var i: nat := 1;
    nbytes := 0;
    assert args[..0] == [];
    while i < |st|
      invariant 1 <= i && Filled(args, junk, i - 1, nbytes, pseu[..])
    {
      var arg := st[i];
      assert arg == args[i - 1];
      var checkLen := nbytes + |arg|;
      if checkLen > pseu.Length {
        return nbytes, Some(i - 1);
      }
      CopyNext(args, junk, i - 1, arg, pseu, nbytes);
      nbytes := checkLen;
      i := i + 1;
    }
    assert i - 1 == |args|;
    overflowAt := None;
  }

  /** hack30_pray: pack the arguments into the uninitialised `pseu`, croak
      if they do not fit, else call with six or thirty words. */
  method Hack30Pray(intSize: nat, st: seq<Buffer>, junk: Buffer) returns (r: Outcome)
    requires |junk| == 30 * intSize
    ensures r == Hack30Image(intSize, st, junk)
  {
    var capacity := 30 * intSize;
    var pseu := new byte[capacity](b requires 0 <= b < capacity => junk[b]);
    assert pseu[..] == junk;
    var nbytes, overflowAt := PackArguments(st, junk, pseu);
    if overflowAt.Some? {
      Hack30Overflow(intSize, st, junk, overflowAt.value);
      return TooManyArguments(overflowAt.value + 1);
    }
    Hack30Complete(intSize, st, junk, |Placed(st, 1)|, nbytes, pseu[..]);
    if nbytes <= 6 * intSize {
      return Invoke(ShortWords, pseu[..6 * intSize]);
    }
    return Invoke(Words, pseu[..]);
  }

  /** The argument whose copy would cross the end of `pseu` is the one
      reported. */
  lemma Hack30Overflow(intSize: nat, st: seq<Buffer>, junk: Buffer, n: nat)
    requires |junk| == 30 * intSize
    requires var args := Placed(st, 1);
      n < |args| && PrefixLen(args, n) <= 30 * intSize < PrefixLen(args, n) + |args[n]|
    ensures Hack30Image(intSize, st, junk) == TooManyArguments(n + 1)
  {
    var args := Placed(st, 1);
    PrefixLenNext(args, n);
    FirstAboveUnique(args, 30 * intSize, n);
  }

  /** Once every argument is copied, the outcome is the call with the
      buffer as filled. */
  lemma Hack30Complete(intSize: nat, st: seq<Buffer>, junk: Buffer, n: nat, nbytes: nat, regs: Buffer)
    requires |junk| == 30 * intSize
    requires n >= |Placed(st, 1)| && Filled(Placed(st, 1), junk, n, nbytes, regs)
    ensures Hack30Image(intSize, st, junk) ==
      if nbytes <= 6 * intSize then Invoke(ShortWords, regs[..6 * intSize]) else Invoke(Words, regs)
  {
    var args := Placed(st, 1);
    assert args[..n] == args;
  }

  /** Packing fails exactly when some running total exceeds the 30 words,
      and the argument reported is the first one that did not fit: everything
      before it fitted. */
  lemma Hack30FailsIffOverflow(intSize: nat, st: seq<Buffer>, junk: Buffer)
    requires |junk| == 30 * intSize
    ensures var args := Placed(st, 1);
      Hack30Image(intSize, st, junk).TooManyArguments? <==>
        exists k :: 0 <= k <= |args| && PrefixLen(args, k) > 30 * intSize
    ensures var args := Placed(st, 1);
      match Hack30Image(intSize, st, junk)
      case TooManyArguments(a) =>
        1 <= a <= |args| && PrefixLen(args, a - 1) <= 30 * intSize < PrefixLen(args, a)
      case Invoke(_, _) => true
  {
    var args := Placed(st, 1);
    assert args[..|args|] == args;
    if exists k :: 0 <= k <= |args| && PrefixLen(args, k) > 30 * intSize {
      var k :| 0 <= k <= |args| && PrefixLen(args, k) > 30 * intSize;
      PrefixLenMono(args, k, |args|);
    }
  }

  /** On success, argument k (ST(k+1)) starts at the running total of the
      arguments before it, bytes past the total keep their junk, and the
      short call is used exactly when the total fits in six words. */
  lemma Hack30Layout(intSize: nat, st: seq<Buffer>, junk: Buffer, k: nat, j: nat, b: nat)
    requires |junk| == 30 * intSize
    requires Hack30Image(intSize, st, junk).Invoke?
    ensures var r := Hack30Image(intSize, st, junk);
      var args := Placed(st, 1);
      && (r.arity == ShortWords <==> TotalLen(args) <= 6 * intSize)
      && (r.arity == ShortWords || r.arity == Words)
      && |r.words| == (if r.arity == ShortWords then 6 * intSize else 30 * intSize)
      && (k < |args| && j < |args[k]| ==>
            PrefixLen(args, k) + j < |r.words| && r.words[PrefixLen(args, k) + j] == args[k][j])
      && (TotalLen(args) <= b < |r.words| ==> r.words[b] == junk[b])
  {
    var args := Placed(st, 1);
    if k < |args| && j < |args[k]| {
      ConcatAt(args, k, j);
    }
  }

  /** ST(0) is never packed. */
  lemma Hack30IgnoresFirstSlot(intSize: nat, st: seq<Buffer>, junk: Buffer, x: Buffer)
    requires |junk| == 30 * intSize
    requires |st| > 0
    ensures Hack30Image(intSize, st[0 := x], junk) == Hack30Image(intSize, st, junk)
  {
    assert Placed(st[0 := x], 1) == Placed(st, 1);
  }
}
