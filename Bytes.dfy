/**
  Byte buffers and the Perl argument stack as the calling-convention backends
  see them: `st[i]` stands for the string value `SvPV(ST(i))`, an opaque byte
  string whose length is its only type information. Every backend lays out
  some suffix of the stack; this module defines the in-order concatenation of
  such a list, the running byte totals the backends keep, and Perl's `Copy`.
*/
module Bytes {

  newtype byte = x: int | 0 <= x < 256

  type Buffer = seq<byte>

  /** ST(start), ..., ST(items - 1): the arguments a backend places; the
      entries below `start` are never read by it. */
  function Placed(st: seq<Buffer>, start: nat): (args: seq<Buffer>)
    ensures |args| == if start < |st| then |st| - start else 0
  {
    if start < |st| then st[start..] else []
  }

  /** Dropping `k` more entries of the stack. */
  lemma PlacedSuffix(st: seq<Buffer>, start: nat, k: nat)
    requires k <= |Placed(st, start)|
    ensures Placed(st, start)[k..] == Placed(st, start + k)
  {
  }

  /** Sum of the argument lengths. */
  function TotalLen(args: seq<Buffer>): nat
  {
    if args == [] then 0 else TotalLen(args[..|args| - 1]) + |args[|args| - 1]|
  }

  /** The arguments' bytes laid out back to back, first argument first. */
  function Concat(args: seq<Buffer>): (image: Buffer)
    ensures |image| == TotalLen(args)
  {
    if args == [] then [] else Concat(args[..|args| - 1]) + args[|args| - 1]
  }

  /** Bytes taken by the first `k` arguments: where argument `k` starts. */
  function PrefixLen(args: seq<Buffer>, k: nat): nat
    requires k <= |args|
  {
    TotalLen(args[..k])
  }

  /** Argument `k` adds its length to the running total. */
  lemma PrefixLenNext(args: seq<Buffer>, k: nat)
    requires k < |args|
    ensures PrefixLen(args, k + 1) == PrefixLen(args, k) + |args[k]|
    ensures Concat(args[..k + 1]) == Concat(args[..k]) + args[k]
  {
    assert args[..k + 1][..k] == args[..k];
  }

  lemma {:induction false} ConcatAppend(a: seq<Buffer>, b: seq<Buffer>)
    ensures Concat(a + b) == Concat(a) + Concat(b)
    ensures TotalLen(a + b) == TotalLen(a) + TotalLen(b)
    decreases |b|
  {
    if b == [] {
      assert a + b == a;
    } else {
      var b' := b[..|b| - 1];
      assert (a + b)[..|a + b| - 1] == a + b';
      ConcatAppend(a, b');
    }
  }

  lemma ConcatSplit(args: seq<Buffer>, k: nat)
    requires k <= |args|
    ensures Concat(args) == Concat(args[..k]) + Concat(args[k..])
    ensures TotalLen(args) == PrefixLen(args, k) + TotalLen(args[k..])
  {
    assert args == args[..k] + args[k..];
    ConcatAppend(args[..k], args[k..]);
  }

  /** The first argument's bytes come first. */
  lemma ConcatCons(args: seq<Buffer>)
    requires |args| > 0
    ensures Concat(args) == args[0] + Concat(args[1..])
    ensures TotalLen(args) == |args[0]| + TotalLen(args[1..])
  {
    assert args == [args[0]] + args[1..];
    ConcatAppend([args[0]], args[1..]);
    assert [args[0]][..0] == [];
  }

  /** The stack from ST(i) on is ST(i) followed by the stack from ST(i+1). */
  lemma PlacedCons(st: seq<Buffer>, i: nat)
    requires i < |st|
    ensures Concat(Placed(st, i)) == st[i] + Concat(Placed(st, i + 1))
    ensures TotalLen(Placed(st, i)) == |st[i]| + TotalLen(Placed(st, i + 1))
  {
    ConcatCons(Placed(st, i));
    assert Placed(st, i)[1..] == Placed(st, i + 1);
  }

  /** Byte `j` of argument `k` sits at offset PrefixLen(args, k) + j of the
      concatenation. */
  lemma ConcatAt(args: seq<Buffer>, k: nat, j: nat)
    requires k < |args| && j < |args[k]|
    ensures PrefixLen(args, k) + j < TotalLen(args)
    ensures Concat(args)[PrefixLen(args, k) + j] == args[k][j]
  {
    ConcatSplit(args, k);
    ConcatCons(args[k..]);
  }

  /** Running totals never decrease: lengths are non-negative. */
  lemma PrefixLenMono(args: seq<Buffer>, j: nat, k: nat)
    requires j <= k <= |args|
    ensures PrefixLen(args, j) <= PrefixLen(args, k) <= TotalLen(args)
  {
    ConcatSplit(args[..k], j);
    assert args[..k][..j] == args[..j];
    ConcatSplit(args, k);
  }

  /** The argument at which the running total first exceeds `bound`. */
  function FirstAbove(args: seq<Buffer>, bound: nat): (k: nat)
    requires TotalLen(args) > bound
    ensures k < |args|
    ensures PrefixLen(args, k) <= bound < PrefixLen(args, k + 1)
    decreases |args|
  {
    var n := |args| - 1;
    assert args[..n + 1] == args;
    if TotalLen(args[..n]) > bound then
      var k := FirstAbove(args[..n], bound);
      assert args[..n][..k] == args[..k];
      assert args[..n][..k + 1] == args[..k + 1];
      k
    else
      n
  }

  /** Only one argument can straddle a bound, so FirstAbove is determined by
      the two running totals around it. */
  lemma FirstAboveUnique(args: seq<Buffer>, bound: nat, j: nat)
    requires j < |args|
    requires PrefixLen(args, j) <= bound < PrefixLen(args, j + 1)
    ensures TotalLen(args) > bound
    ensures FirstAbove(args, bound) == j
  {
    PrefixLenMono(args, j + 1, |args|);
    assert args[..|args|] == args;
    var k := FirstAbove(args, bound);
    if k < j {
      PrefixLenMono(args, k + 1, j);
    } else if k > j {
      PrefixLenMono(args, j + 1, k);
    }
  }

  /** A buffer with `src` written over it from offset `at`. */
  function Overwrite(s: Buffer, at: nat, src: Buffer): (r: Buffer)
    requires at + |src| <= |s|
    ensures |r| == |s|
  {
    s[..at] + src + s[at + |src|..]
  }

  /** Copying `piece` just after `packed` bytes of a buffer that otherwise
      still holds `junk` leaves the rest of the junk. */
  lemma FillStep(packed: Buffer, piece: Buffer, junk: Buffer)
    requires |packed| + |piece| <= |junk|
    ensures Overwrite(packed + junk[|packed|..], |packed|, piece) == (packed + piece) + junk[|packed| + |piece|..]
  {
    var before := packed + junk[|packed|..];
    assert before[..|packed|] == packed;
    assert before[|packed| + |piece|..] == junk[|packed| + |piece|..];
  }

  /** After a copy, the bytes up to its end are the old prefix and `src`. */
  lemma AppendStep(s: Buffer, at: nat, src: Buffer)
    requires at + |src| <= |s|
    ensures Overwrite(s, at, src)[..at + |src|] == s[..at] + src
  {
  }

  /** A buffer that started as `junk` after the first `n` arguments were
      copied whole, back to back: `nbytes` is their running total, and the
      bytes past it are still junk. */
  ghost predicate Filled(args: seq<Buffer>, junk: Buffer, n: nat, nbytes: nat, regs: Buffer)
  {
    && n <= |args|
    && nbytes == PrefixLen(args, n) <= |junk|
    && regs == Concat(args[..n]) + junk[nbytes..]
  }

  /** Copying the next argument whole, when it fits, keeps the buffer filled. */
  lemma FillNext(args: seq<Buffer>, junk: Buffer, n: nat, nbytes: nat, regs: Buffer)
    requires Filled(args, junk, n, nbytes, regs) && n < |args|
    requires nbytes + |args[n]| <= |junk|
    ensures Filled(args, junk, n + 1, nbytes + |args[n]|, Overwrite(regs, nbytes, args[n]))
  {
    PrefixLenNext(args, n);
    FillStep(Concat(args[..n]), args[n], junk);
  }

  /** Perl's `Copy(src, dst + at, |src|, char)`: a byte-wise memcpy. */
  method CopyInto(src: Buffer, dst: array<byte>, at: nat)
    requires at + |src| <= dst.Length
    modifies dst
    ensures dst[..] == Overwrite(old(dst[..]), at, src)
  {
    var j := 0;
    while j < |src|
      invariant 0 <= j <= |src|
      invariant forall b :: 0 <= b < dst.Length ==>
        dst[b] == if at <= b < at + j then src[b - at] else old(dst[b])
    {
      dst[at + j] := src[j];
      j := j + 1;
    }
    assert dst[..] == Overwrite(old(dst[..]), at, src);
  }

  /** Copy argument `n` whole into a buffer filled with the arguments before
      it, at their running total. */
  method CopyNext(ghost args: seq<Buffer>, ghost junk: Buffer, ghost n: nat, arg: Buffer, buf: array<byte>, nbytes: nat)
    requires Filled(args, junk, n, nbytes, buf[..]) && n < |args| && arg == args[n]
    requires |junk| == buf.Length && nbytes + |arg| <= buf.Length
    modifies buf
    ensures Filled(args, junk, n + 1, nbytes + |arg|, buf[..])
  {
    FillNext(args, junk, n, nbytes, buf[..]);
    CopyInto(arg, buf, nbytes);
  }
}
