/**
  The `alpha` calling convention: each argument ST(argStart)..ST(items-1) is
  widened to a `long` according to its byte length; the first six words go to
  the register array `pseu` (zero-initialised), the rest to an overflow array
  allocated when the seventh argument is reached. The first six words are
  also loaded into the floating-point argument registers f16-f21 on GCC
  builds, and the function is called with the six register words.
  `argStart` is DYNALIB_ARGSTART.
*/
module Alpha {
  import opened Bytes
  import opened Results
  import opened Marshal

  /** Number of integer argument registers. */
  const RegisterWords := 6

  datatype Outcome =
      /** croak("Argument %d has unsupported length ...") for the argument at
          1-based position `argument`; the function is not called */
    | Unsupported(argument: nat)
      /** the function is called with `registers`; `overflow` is the memory
          allocated for the later words; `fp` is what f16-f21 hold (None when
          the build does not load them) */
    | AlphaCall(registers: seq<int>, overflow: seq<int>, fp: Option<seq<int>>)

  /** The widened words of all arguments, or the index of the first argument
      whose length is unsupported. */
  function WidenAll(p: Platform, args: seq<Buffer>): (r: Result<seq<int>, nat>)
    requires ValidPlatform(p)
    ensures r.Ok? <==> forall k :: 0 <= k < |args| ==> Handled(p, |args[k]|)
    ensures r.Ok? ==> |r.value| == |args| &&
                      forall k :: 0 <= k < |args| ==> Widen(p, args[k]) == Some(r.value[k])
    ensures r.Err? ==> r.error < |args| && !Handled(p, |args[r.error]|) &&
                       forall k :: 0 <= k < r.error ==> Handled(p, |args[k]|)
    decreases |args|
  {
    if args == [] then Ok([])
    else
      var n := |args| - 1;
      match WidenAll(p, args[..n])
      case Err(k) => Err(k)
      case Ok(ws) =>
        match Widen(p, args[n])
        case None => Err(n)
        case Some(w) => Ok(ws + [w])
  }

  /** What alpha_pray does, stated on the whole argument list. */
  function AlphaImage(p: Platform, argStart: nat, fpLoads: bool, st: seq<Buffer>): Outcome
    requires ValidPlatform(p)
  {
    match WidenAll(p, Placed(st, argStart))
    case Err(k) => Unsupported(k + 1)
    case Ok(ws) =>
      var regs := RegistersOf(ws);
      AlphaCall(regs, if |ws| > RegisterWords then ws[RegisterWords..] else [],
                if fpLoads then Some(regs) else None)
  }

  /** The register words holding the first words of `ws`, zero past them. */
  function RegistersOf(ws: seq<int>): (regs: seq<int>)
    ensures |regs| == RegisterWords
    ensures forall k :: 0 <= k < RegisterWords ==> regs[k] == if k < |ws| then ws[k] else 0
  {
    seq(RegisterWords, k requires 0 <= k < RegisterWords => if k < |ws| then ws[k] else 0)
  }

  /** What `pseu` and the overflow array hold once the words `ws` have been
      stored, out of `count` arguments: the overflow array exists (has
      `count - 6` words) once a seventh word is stored, and `slot` is the
      overflow word `lptr` last wrote. */
  ghost predicate Stored(ws: seq<int>, count: nat, regs: seq<int>, over: seq<int>, slot: nat)
  {
    && |ws| <= count
    && regs == RegistersOf(ws)
    && |over| == (if |ws| > RegisterWords then count - RegisterWords else 0)
    && (|ws| > RegisterWords ==> slot == |ws| - RegisterWords - 1 && over[..slot + 1] == ws[RegisterWords..])
  }

  /** One store through `lptr`: argument `n` (counted from argStart) goes to
      register slot `n` while n < 6; at n == 6 the overflow array for the
      remaining `count - 6` words is allocated; after that `lptr` advances by
      one word. */
  method StoreWord(pseu: array<int>, overflow: array<int>, slot: nat, n: nat, count: nat, w: int,
                   ghost ws: seq<int>)
    returns (overflow': array<int>, slot': nat)
    requires pseu.Length == RegisterWords && overflow != pseu
    requires n == |ws| < count && Stored(ws, count, pseu[..], overflow[..], slot)
    modifies pseu, overflow
    ensures overflow' != pseu && (overflow' == overflow || fresh(overflow'))
    ensures Stored(ws + [w], count, pseu[..], overflow'[..], slot')
  {
    if n < RegisterWords {
      pseu[n] := w;
      overflow', slot' := overflow, slot;
      assert pseu[..] == RegistersOf(ws + [w]);
    } else {
      if n == RegisterWords {
        overflow' := new int[count - RegisterWords];
        slot' := 0;
      } else {
        overflow', slot' := overflow, slot + 1;
      }
      overflow'[slot'] := w;
      assert pseu[..] == RegistersOf(ws + [w]);
      assert overflow'[..slot' + 1] == overflow'[..slot'] + [w];
    }
  }

  /** alpha_pray: each argument is widened and stored through `lptr`; an
      unsupported length stops the loop before the call. */
  method AlphaPray(p: Platform, argStart: nat, fpLoads: bool, st: seq<Buffer>) returns (r: Outcome)
    requires ValidPlatform(p)
    ensures r == AlphaImage(p, argStart, fpLoads, st)
  {
    ghost var args := Placed(st, argStart);
    var pseu := new int[RegisterWords](_ => 0);
    var overflow := new int[0];
    var slot := 0;
    var i := argStart;
    ghost var ws: seq<int> := [];
    assert args[..0] == [];
    assert pseu[..] == RegistersOf([]);
    while i < |st|
      invariant argStart <= i && i - argStart <= |args|
      invariant WidenAll(p, args[..i - argStart]) == Ok(ws)
      invariant fresh(overflow) && overflow != pseu
      invariant Stored(ws, |args|, pseu[..], overflow[..], slot)
    {
      var n := i - argStart;
      assert args[..n + 1][..n] == args[..n];
      assert st[i] == args[n];
      var w := Widen(p, st[i]);
      if w.None? {
        assert WidenAll(p, args[..n + 1]) == Err(n);
        WidenAllPrefix(p, args, n + 1);
        return Unsupported(i + 1 - argStart);
      }
      overflow, slot := StoreWord(pseu, overflow, slot, n, |st| - argStart, w.value, ws);
      ws := ws + [w.value];
      i := i + 1;
    }
    assert args[..i - argStart] == args;
    assert overflow[..] == if |ws| > RegisterWords then ws[RegisterWords..] else [];
    var regs := pseu[..];
    r := AlphaCall(regs, overflow[..], if fpLoads then Some(regs) else None);
  }

  /** A failure in a prefix of the arguments is the failure of the whole
      list: the first unsupported argument is reported. */
  lemma WidenAllPrefix(p: Platform, args: seq<Buffer>, n: nat)
    requires ValidPlatform(p) && n <= |args|
    requires WidenAll(p, args[..n]).Err?
    ensures WidenAll(p, args) == WidenAll(p, args[..n])
  {
    var k := WidenAll(p, args[..n]).error;
    assert forall j :: 0 <= j <= k ==> args[..n][j] == args[j];
    assert !Handled(p, |args[k]|);
    assert forall j :: 0 <= j < k ==> Handled(p, |args[j]|);
  }

  /** The call is refused exactly when some argument's length is not that of
      a char, short, int or long; the position reported (1-based, counted
      from argStart) is the first such argument. */
  lemma AlphaFailsIffUnsupported(p: Platform, argStart: nat, fpLoads: bool, st: seq<Buffer>)
    requires ValidPlatform(p)
    ensures var args := Placed(st, argStart);
      AlphaImage(p, argStart, fpLoads, st).Unsupported? <==>
        exists k :: 0 <= k < |args| && !(|args[k]| in {1, p.shortSize, p.intSize, p.longSize})
    ensures var args := Placed(st, argStart);
      match AlphaImage(p, argStart, fpLoads, st)
      case Unsupported(a) =>
        && 1 <= a <= |args| && !(|args[a - 1]| in {1, p.shortSize, p.intSize, p.longSize})
        && forall k :: 0 <= k < a - 1 ==> |args[k]| in {1, p.shortSize, p.intSize, p.longSize}
      case AlphaCall(_, _, _) => true
  {
    var args := Placed(st, argStart);
    forall k | 0 <= k < |args| {
      HandledIffCType(p, |args[k]|);
    }
  }

  /** On success, argument k is widened into register slot k when k < 6 and
      into overflow word k - 6 otherwise; the overflow has one word per
      argument past the sixth; register slots no argument reached stay 0;
      the floating-point registers, when loaded, copy the register words. */
  lemma AlphaPlacement(p: Platform, argStart: nat, fpLoads: bool, st: seq<Buffer>, k: nat)
    requires ValidPlatform(p)
    requires AlphaImage(p, argStart, fpLoads, st).AlphaCall?
    ensures var args := Placed(st, argStart);
      var c := AlphaImage(p, argStart, fpLoads, st);
      && |c.registers| == RegisterWords
      && |c.overflow| == (if |args| > RegisterWords then |args| - RegisterWords else 0)
      && (k < |args| && k < RegisterWords ==> Widen(p, args[k]) == Some(c.registers[k]))
      && (k < |args| && k >= RegisterWords ==> Widen(p, args[k]) == Some(c.overflow[k - RegisterWords]))
      && (|args| <= k < RegisterWords ==> c.registers[k] == 0)
      && (c.fp.Some? <==> fpLoads)
      && (fpLoads ==> c.fp.value == c.registers)
  {
  }

  /** Each word, truncated to its argument's width, gives the argument back,
      lies in the range of the argument's C type (so it is the sign
      extension, or for an unsigned char the zero extension; see
      WidenUnique), and fits in a `long`. */
  lemma AlphaWordsRoundTrip(p: Platform, argStart: nat, fpLoads: bool, st: seq<Buffer>, k: nat)
    requires ValidPlatform(p)
    requires AlphaImage(p, argStart, fpLoads, st).AlphaCall?
    requires k < |Placed(st, argStart)|
    ensures var args := Placed(st, argStart);
      var c := AlphaImage(p, argStart, fpLoads, st);
      var w := if k < RegisterWords then c.registers[k] else c.overflow[k - RegisterWords];
      && Encode(|args[k]|, w) == args[k]
      && |args[k]| > 0 && InExtensionRange(p, |args[k]|, w)
      && -128 * Pow256(p.longSize - 1) <= w < 128 * Pow256(p.longSize - 1)
  {
    var args := Placed(st, argStart);
    AlphaPlacement(p, argStart, fpLoads, st, k);
    WidenRoundTrip(p, args[k]);
    WidenRange(p, args[k]);
    WidenFitsLong(p, args[k]);
  }

  /** The stack entries below DYNALIB_ARGSTART are never read. */
  lemma AlphaIgnoresBelowArgStart(p: Platform, argStart: nat, fpLoads: bool, st: seq<Buffer>, j: nat, x: Buffer)
    requires ValidPlatform(p)
    requires j < argStart && j < |st|
    ensures AlphaImage(p, argStart, fpLoads, st[j := x]) == AlphaImage(p, argStart, fpLoads, st)
  {
    assert Placed(st[j := x], argStart) == Placed(st, argStart);
  }
}
