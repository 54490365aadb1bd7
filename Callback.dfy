/**
  C-to-Perl callbacks. `cb_init` builds the configuration table: one entry
  per C trampoline, none bound to a Perl sub yet. `cb_call_sub` is what a
  trampoline runs: it decodes the entry's argument-type string against the
  C arguments it received (the first as an `int`, the rest from a
  `va_list`), calls the bound Perl sub in scalar context, re-raises an error
  the sub left in `$@` when called inside an `eval`, and coerces the single
  value returned according to the return-type character.

  The Perl interpreter is a value of type `Perl`: the services the code uses
  are its fields. Signature strings are the characters before the C
  string's terminating NUL.
*/
module Callback {
  import opened Results

  /** A mortal scalar pushed as an argument or returned by the sub. */
  datatype Scalar = IV(i: int) | PV(s: string)

  /** A cb_entry: the C trampoline `func` (an element of cb_arr, named by a
      number), the Perl sub bound to it (None for NULL), and the argument
      and return type strings as stored (the code reads them up to their
      first NUL). */
  datatype Entry = Entry(func: nat, coderef: Option<nat>, argType: string, retType: string)

  /** What perl_call_sv leaves: the values on the stack, and `$@`. */
  datatype HostReturn = HostReturn(values: seq<Scalar>, err: string)

  /** The interpreter services cb_call_sub relies on. */
  datatype Perl = Perl(
    /** sizeof(char *) == sizeof(int) on this build */
    ptrIsInt: bool,
    /** the NUL-terminated string at an address (newSVpv(p, 0)) */
    cString: int -> string,
    /** (IV) of a `double` taken from the va_list */
    doubleToIV: int -> int,
    /** perl_call_sv(coderef) in scalar context, given the pushed arguments
        and `$@` before the call */
    call: (nat, seq<Scalar>, string) -> HostReturn,
    /** POPi and (int) POPp on the returned value */
    popInt: Scalar -> int,
    popPtr: Scalar -> int)

  datatype Outcome = Croak(message: string) | Return(value: int)

  /** cb_init: one entry per trampoline of `callbacks` (cb_arr, whose length
      is NUM_CALLBACKS), built by updating one template entry in a loop. */
  method CbInit(callbacks: seq<nat>) returns (table: seq<Entry>)
    ensures |table| == |callbacks|
    ensures forall i :: 0 <= i < |table| ==>
              && table[i].func == callbacks[i] && table[i].coderef == None
              && table[i].argType == "" && table[i].retType == ""
  {
    var entry := Entry(0, None, "", "");
    var elts := new Entry[|callbacks|];
    var i := 0;
    while i < |callbacks|
      invariant 0 <= i <= |callbacks|
      invariant entry.coderef == None && entry.argType == "" && entry.retType == ""
      invariant forall k :: 0 <= k < i ==>
                  && elts[k].func == callbacks[k] && elts[k].coderef == None
                  && elts[k].argType == "" && elts[k].retType == ""
    {
      entry := entry.(func := callbacks[i]);
      elts[i] := entry;
      i := i + 1;
    }
    table := elts[..];
  }

  function BadFirstMessage(c: char): string
  {
    "Can't use '" + [c] + "' as first argument type in callback"
  }

  function BadArgMessage(c: char): string
  {
    "Can't use '" + [c] + "' as argument type in callback"
  }

  function BadReturnMessage(c: char): string
  {
    "Can't use '" + [c] + "' as return type in callback"
  }

  const CallFailedMessage := "Call to callback failed\n"

  /** The prefix Perl gives errors raised during cleanup. */
  const CleanupPrefix := "\t(in cleanup) "

  const InCallback := "In callback: "

  /** The characters of a C string before its terminating NUL: what the code
      sees of a type string it walks through a `char *`. */
  function CStr(s: string): (r: string)
    ensures r <= s && '\0' !in r
    ensures |r| < |s| ==> s[|r|] == '\0'
  {
    if s == [] || s[0] == '\0' then [] else [s[0]] + CStr(s[1..])
  }

  /** Characters before the first NUL are seen; the string seen ends at the
      first NUL or at the end. */
  lemma CStrPrefix(s: string, k: nat)
    requires k <= |s| && forall j :: 0 <= j < k ==> s[j] != '\0'
    ensures k <= |CStr(s)| && CStr(s)[..k] == s[..k]
    ensures k == |s| || s[k] == '\0' ==> CStr(s) == s[..k]
  {
  }

  /** Type characters accepted at each position of the signature: the first
      argument is an `int` slot, so only 'i', or 'p' where a pointer fits in
      an int; later ones are 'i', 'd' or 'p'. */
  predicate ValidAt(perl: Perl, sig: string, k: nat)
    requires k < |sig|
  {
    if k == 0 then sig[0] == 'i' || (sig[0] == 'p' && perl.ptrIsInt)
    else sig[k] == 'i' || sig[k] == 'd' || sig[k] == 'p'
  }

  /** Position `k` is the first invalid character of the signature. */
  predicate FirstInvalid(perl: Perl, sig: string, k: nat)
  {
    k < |sig| && !ValidAt(perl, sig, k) && forall j :: 0 <= j < k ==> ValidAt(perl, sig, j)
  }

  /** The croak for an invalid character at position `k`. */
  function ArgError(sig: string, k: nat): string
    requires k < |sig|
  {
    if k == 0 then BadFirstMessage(sig[0]) else BadArgMessage(sig[k])
  }

  /** The scalar pushed for the first argument `first`. */
  function DecodeFirst(perl: Perl, c: char, first: int): Result<Scalar, string>
  {
    if c == 'i' then Ok(IV(first))
    else if c == 'p' && perl.ptrIsInt then Ok(PV(perl.cString(first)))
    else Err(BadFirstMessage(c))
  }

  /** The scalar pushed for a later argument, taken from va_list slot `v`. */
  function DecodeLater(perl: Perl, c: char, v: int): Result<Scalar, string>
  {
    if c == 'i' then Ok(IV(v))
    else if c == 'd' then Ok(IV(perl.doubleToIV(v)))
    else if c == 'p' then Ok(PV(perl.cString(v)))
    else Err(BadArgMessage(c))
  }

  /** The arguments pushed for signature `sig`: one per character, in
      order, or the croak for its first invalid character. */
  function DecodeArgs(perl: Perl, sig: string, first: int, ap: seq<int>): (r: Result<seq<Scalar>, string>)
    requires |sig| <= |ap| + 1
    ensures r.Ok? <==> forall k :: 0 <= k < |sig| ==> ValidAt(perl, sig, k)
    ensures r.Ok? ==>
              && |r.value| == |sig|
              && (|sig| > 0 ==> DecodeFirst(perl, sig[0], first) == Ok(r.value[0]))
              && forall k :: 0 < k < |sig| ==> DecodeLater(perl, sig[k], ap[k - 1]) == Ok(r.value[k])
    ensures r.Err? ==> exists k :: FirstInvalid(perl, sig, k) && r.error == ArgError(sig, k)
    decreases |sig|
  {
    if sig == [] then Ok([])
    else if |sig| == 1 then
      match DecodeFirst(perl, sig[0], first)
      case Err(m) => assert FirstInvalid(perl, sig, 0); Err(m)
      case Ok(v) => Ok([v])
    else
      var n := |sig| - 1;
      var init := sig[..n];
      assert forall k :: 0 <= k < n ==> (ValidAt(perl, init, k) <==> ValidAt(perl, sig, k));
      match DecodeArgs(perl, init, first, ap)
      case Err(m) =>
        var k :| FirstInvalid(perl, init, k) && m == ArgError(init, k);
        assert FirstInvalid(perl, sig, k);
        Err(m)
      case Ok(vs) =>
        match DecodeLater(perl, sig[n], ap[n - 1])
        case Err(m) => assert FirstInvalid(perl, sig, n); Err(m)
        case Ok(v) => Ok(vs + [v])
  }

  /** The first invalid position is unique. */
  lemma FirstInvalidUnique(perl: Perl, sig: string, j: nat, k: nat)
    requires FirstInvalid(perl, sig, j) && FirstInvalid(perl, sig, k)
    ensures j == k
  {
  }

  /** An invalid character in a prefix of the signature is the croak of the
      whole signature. */
  lemma DecodeArgsPrefix(perl: Perl, sig: string, first: int, ap: seq<int>, n: nat)
    requires |sig| <= |ap| + 1 && n <= |sig|
    requires DecodeArgs(perl, sig[..n], first, ap).Err?
    ensures DecodeArgs(perl, sig, first, ap) == DecodeArgs(perl, sig[..n], first, ap)
  {
    var init := sig[..n];
    var k :| FirstInvalid(perl, init, k) && DecodeArgs(perl, init, first, ap).error == ArgError(init, k);
    assert forall j :: 0 <= j <= k ==> (ValidAt(perl, init, j) <==> ValidAt(perl, sig, j));
    assert FirstInvalid(perl, sig, k);
    var r := DecodeArgs(perl, sig, first, ap);
    var k' :| FirstInvalid(perl, sig, k') && r.error == ArgError(sig, k');
    FirstInvalidUnique(perl, sig, k, k');
  }

  /** The error re-raised after an eval'd call, if any: only when `$@` grew;
      a message that was empty before and now starts with the cleanup prefix
      is reported without it after "In callback: ", any other is reported
      verbatim. */
  function ReRaise(before: string, after: string): (r: Option<string>)
    ensures r.Some? <==> |after| > |before|
  {
    if |after| > |before| then
      if |before| == 0 && CleanupPrefix <= after then Some(InCallback + after[|CleanupPrefix|..])
      else Some(after)
    else None
  }

  /** The returned value converted by the return-type character ('\0' when
      the return type string is empty). */
  function Coerce(perl: Perl, retType: string, v: Scalar): (r: Outcome)
    ensures r.Return? <==> retType == [] || retType[0] == '\0' || retType[0] == 'i' || (retType[0] == 'p' && perl.ptrIsInt)
  {
    var c := if retType == [] then '\0' else retType[0];
    if c == '\0' || c == 'i' then Return(perl.popInt(v))
    else if c == 'p' && perl.ptrIsInt then Return(perl.popPtr(v))
    else Croak(BadReturnMessage(c))
  }

  /** What cb_call_sub does for table slot `index`, stated on whole values.
      `inEval` is whether the callback runs inside an eval and `errBefore`
      is `$@` at that point. */
  function CallbackResult(perl: Perl, table: seq<Entry>, index: nat, first: int, ap: seq<int>,
                          inEval: bool, errBefore: string): Outcome
    requires index < |table| && table[index].coderef.Some?
    requires |CStr(table[index].argType)| <= |ap| + 1
  {
    var config := table[index];
    match DecodeArgs(perl, CStr(config.argType), first, ap)
    case Err(m) => Croak(m)
    case Ok(args) =>
      var hr := perl.call(config.coderef.value, args, errBefore);
      if inEval && ReRaise(errBefore, hr.err).Some? then Croak(ReRaise(errBefore, hr.err).value)
      else if |hr.values| != 1 then Croak(CallFailedMessage)
      else Coerce(perl, config.retType, hr.values[0])
  }

  /** The first half of cb_call_sub: walk the argument-type string, pushing
      one scalar per character, `first` for the first and the next va_list
      slot for each later one. */
  method PushArguments(perl: Perl, argType: string, first: int, ap: seq<int>)
    returns (pushed: Result<seq<Scalar>, string>)
    requires |CStr(argType)| <= |ap| + 1
    ensures pushed == DecodeArgs(perl, CStr(argType), first, ap)
  {
    ghost var sig := CStr(argType);
    if |argType| > 0 && argType[0] != '\0' {
      var c := argType[0];
      var stack: seq<Scalar>;
      CStrPrefix(argType, 1);
      assert sig[..1] == [c];
      if c == 'i' {
        stack := [IV(first)];
      } else if c == 'p' && perl.ptrIsInt {
        stack := [PV(perl.cString(first))];
      } else {
        DecodeArgsPrefix(perl, sig, first, ap, 1);
        return Err(BadFirstMessage(c));
      }
      assert DecodeFirst(perl, c, first) == Ok(stack[0]) && stack == [stack[0]];
      assert DecodeArgs(perl, sig[..1], first, ap) == Ok(stack);
      pushed := PushLater(perl, argType, first, ap, stack);
    } else {
      assert sig == [];
      pushed := Ok([]);
    }
  }

  /** The loop over the later characters of the argument-type string, up to
      its NUL, once the first argument has been pushed: each takes the next
      va_list slot. */
  method PushLater(perl: Perl, argType: string, first: int, ap: seq<int>, stack0: seq<Scalar>)
    returns (pushed: Result<seq<Scalar>, string>)
    requires |CStr(argType)| <= |ap| + 1
    requires 1 <= |CStr(argType)| && DecodeArgs(perl, CStr(argType)[..1], first, ap) == Ok(stack0)
    ensures pushed == DecodeArgs(perl, CStr(argType), first, ap)
  {
    ghost var sig := CStr(argType);
    var stack := stack0;
    var k := 1;
    var next := 0;
    assert sig[..1] == argType[..1];
    while k < |argType| && argType[k] != '\0'
      invariant 1 <= k <= |argType| && next == k - 1
      invariant forall j :: 0 <= j < k ==> argType[j] != '\0'
      invariant k <= |sig| && DecodeArgs(perl, sig[..k], first, ap) == Ok(stack)
    {
      var c := argType[k];
      CStrPrefix(argType, k + 1);
      var v: Scalar;
      if c == 'i' {
        v := IV(ap[next]);
      } else if c == 'd' {
        v := IV(perl.doubleToIV(ap[next]));
      } else if c == 'p' {
        v := PV(perl.cString(ap[next]));
      } else {
        DecodeStops(perl, sig, first, ap, k, stack);
        return Err(BadArgMessage(c));
      }
      DecodeNext(perl, sig, first, ap, k, stack, v);
      stack := stack + [v];
      next := next + 1;
      k := k + 1;
    }
    CStrPrefix(argType, k);
    assert sig[..k] == sig;
    pushed := Ok(stack);
  }

  /** An invalid character after a valid prefix is the croak of the whole
      signature. */
  lemma DecodeStops(perl: Perl, sig: string, first: int, ap: seq<int>, k: nat, stack: seq<Scalar>)
    requires 1 <= k < |sig| <= |ap| + 1
    requires DecodeArgs(perl, sig[..k], first, ap) == Ok(stack)
    requires DecodeLater(perl, sig[k], ap[k - 1]).Err?
    ensures DecodeArgs(perl, sig, first, ap) == Err(BadArgMessage(sig[k]))
  {
    assert forall j :: 0 <= j < k ==> (ValidAt(perl, sig[..k], j) <==> ValidAt(perl, sig, j));
    assert FirstInvalid(perl, sig, k);
    var r := DecodeArgs(perl, sig, first, ap);
    var k' :| FirstInvalid(perl, sig, k') && r.error == ArgError(sig, k');
    FirstInvalidUnique(perl, sig, k, k');
  }

  /** Decoding one more character of the signature appends its scalar. */
  lemma DecodeNext(perl: Perl, sig: string, first: int, ap: seq<int>, k: nat, stack: seq<Scalar>, v: Scalar)
    requires 1 <= k < |sig| <= |ap| + 1
    requires DecodeArgs(perl, sig[..k], first, ap) == Ok(stack)
    requires DecodeLater(perl, sig[k], ap[k - 1]) == Ok(v)
    ensures DecodeArgs(perl, sig[..k + 1], first, ap) == Ok(stack + [v])
  {
    assert sig[..k + 1][..k] == sig[..k];
  }

  /** cb_call_sub: push the arguments the signature describes, call the sub,
      check `$@` under eval, check the return count, coerce the result. */
  method CbCallSub(perl: Perl, table: seq<Entry>, index: nat, first: int, ap: seq<int>,
                   inEval: bool, errBefore: string) returns (r: Outcome)
    requires index < |table| && table[index].coderef.Some?
    requires |CStr(table[index].argType)| <= |ap| + 1
    ensures r == CallbackResult(perl, table, index, first, ap, inEval, errBefore)
  {
    var config := table[index];
    var pushed := PushArguments(perl, config.argType, first, ap);
    if pushed.Err? {
      return Croak(pushed.error);
    }
    var stack := pushed.value;
    var coderef := config.coderef.value;
    var hr: HostReturn;
    if inEval {
      var oldErrLen := |errBefore|;
      hr := perl.call(coderef, stack, errBefore);
      var newErrLen := |hr.err|;
      if newErrLen > oldErrLen {
        var msg := hr.err;
        if oldErrLen == 0 && CleanupPrefix <= msg {
          return Croak(InCallback + msg[|CleanupPrefix|..]);
        } else {
          return Croak(msg);
        }
      }
    } else {
      hr := perl.call(coderef, stack, errBefore);
    }
    if |hr.values| != 1 {
      return Croak(CallFailedMessage);
    }
    var c := if |config.retType| == 0 then '\0' else config.retType[0];
    if c == '\0' || c == 'i' {
      r := Return(perl.popInt(hr.values[0]));
    } else if c == 'p' && perl.ptrIsInt {
      r := Return(perl.popPtr(hr.values[0]));
    } else {
      r := Croak(BadReturnMessage(c));
    }
  }

  /** A signature with an invalid character croaks with the message for its
      first invalid character, and the Perl sub is never called: the result
      does not depend on what the sub would do. */
  lemma BadSignatureNeverCalls(perl: Perl, table: seq<Entry>, index: nat, first: int, ap: seq<int>,
                               inEval: bool, errBefore: string, other: (nat, seq<Scalar>, string) -> HostReturn)
    requires index < |table| && table[index].coderef.Some?
    requires |CStr(table[index].argType)| <= |ap| + 1
    requires var sig := CStr(table[index].argType); exists k :: 0 <= k < |sig| && !ValidAt(perl, sig, k)
    ensures var sig := CStr(table[index].argType);
      exists k :: FirstInvalid(perl, sig, k) &&
        CallbackResult(perl, table, index, first, ap, inEval, errBefore) == Croak(ArgError(sig, k))
    ensures CallbackResult(perl.(call := other), table, index, first, ap, inEval, errBefore) ==
            CallbackResult(perl, table, index, first, ap, inEval, errBefore)
  {
    var sig := CStr(table[index].argType);
    var perl' := perl.(call := other);
    assert forall k :: 0 <= k < |sig| ==> (ValidAt(perl', sig, k) <==> ValidAt(perl, sig, k));
    DecodeIgnoresCall(perl, sig, first, ap, other);
  }

  /** Decoding the signature never consults the sub. */
  lemma {:induction false} DecodeIgnoresCall(perl: Perl, sig: string, first: int, ap: seq<int>,
                                             other: (nat, seq<Scalar>, string) -> HostReturn)
    requires |sig| <= |ap| + 1
    ensures DecodeArgs(perl.(call := other), sig, first, ap) == DecodeArgs(perl, sig, first, ap)
    decreases |sig|
  {
    if |sig| > 1 {
      DecodeIgnoresCall(perl, sig[..|sig| - 1], first, ap, other);
    }
  }

  /** A valid signature of length L pushes exactly L scalars, in signature
      order, and they are what the sub is called with. */
  lemma CallbackPassesArguments(perl: Perl, table: seq<Entry>, index: nat, first: int, ap: seq<int>,
                                inEval: bool, errBefore: string)
    requires index < |table| && table[index].coderef.Some?
    requires |CStr(table[index].argType)| <= |ap| + 1
    requires var sig := CStr(table[index].argType); forall k :: 0 <= k < |sig| ==> ValidAt(perl, sig, k)
    ensures var sig := CStr(table[index].argType);
      var args := DecodeArgs(perl, sig, first, ap).value;
      var hr := perl.call(table[index].coderef.value, args, errBefore);
      && |args| == |sig|
      && (|sig| > 0 ==> args[0] == (if sig[0] == 'i' then IV(first) else PV(perl.cString(first))))
      && (forall k :: 0 < k < |sig| ==>
            args[k] == (if sig[k] == 'i' then IV(ap[k - 1])
                        else if sig[k] == 'd' then IV(perl.doubleToIV(ap[k - 1]))
                        else PV(perl.cString(ap[k - 1]))))
      && CallbackResult(perl, table, index, first, ap, inEval, errBefore) ==
           if inEval && |hr.err| > |errBefore| then Croak(ReRaise(errBefore, hr.err).value)
           else if |hr.values| != 1 then Croak(CallFailedMessage)
           else Coerce(perl, table[index].retType, hr.values[0])
  {
    var sig := CStr(table[index].argType);
    var args := DecodeArgs(perl, sig, first, ap).value;
    forall k | 0 < k < |sig|
      ensures args[k] == (if sig[k] == 'i' then IV(ap[k - 1])
                          else if sig[k] == 'd' then IV(perl.doubleToIV(ap[k - 1]))
                          else PV(perl.cString(ap[k - 1])))
    {
      assert ValidAt(perl, sig, k);
      assert DecodeLater(perl, sig[k], ap[k - 1]) == Ok(args[k]);
    }
    if |sig| > 0 {
      assert ValidAt(perl, sig, 0);
    }
  }

  /** Under eval the re-raise decision is made before the return count and
      the return type are looked at: an error the sub added wins over both. */
  lemma EvalErrorWins(perl: Perl, table: seq<Entry>, index: nat, first: int, ap: seq<int>,
                      errBefore: string, retType: string)
    requires index < |table| && table[index].coderef.Some?
    requires |CStr(table[index].argType)| <= |ap| + 1
    requires var r := DecodeArgs(perl, CStr(table[index].argType), first, ap);
      r.Ok? && |perl.call(table[index].coderef.value, r.value, errBefore).err| > |errBefore|
    ensures var args := DecodeArgs(perl, CStr(table[index].argType), first, ap).value;
      var after := perl.call(table[index].coderef.value, args, errBefore).err;
      var t' := table[index := table[index].(retType := retType)];
      && CallbackResult(perl, t', index, first, ap, true, errBefore) == Croak(ReRaise(errBefore, after).value)
      && CallbackResult(perl, table, index, first, ap, true, errBefore) == Croak(ReRaise(errBefore, after).value)
  {
  }

  /** The cleanup form of the re-raised message keeps all of the original
      error: stripping "In callback: " and restoring the cleanup prefix gives
      it back. Any other re-raised message is the new `$@` verbatim. */
  lemma ReRaiseKeepsMessage(before: string, after: string)
    requires |after| > |before|
    ensures var m := ReRaise(before, after).value;
      if before == "" && CleanupPrefix <= after then
        InCallback <= m && after == CleanupPrefix + m[|InCallback|..]
      else m == after
  {
    if before == "" && CleanupPrefix <= after {
      var m := ReRaise(before, after).value;
      assert m[|InCallback|..] == after[|CleanupPrefix|..];
      assert after == after[..|CleanupPrefix|] + after[|CleanupPrefix|..];
    }
  }

  /** A slot as cb_init leaves it (empty argument and return types), once a
      sub is bound to it, calls that sub with no arguments and returns its
      value as an integer. */
  lemma FreshSlotCall(perl: Perl, table: seq<Entry>, index: nat, coderef: nat,
                      first: int, ap: seq<int>, errBefore: string)
    requires index < |table| && table[index].coderef == Some(coderef)
    requires table[index].argType == "" && table[index].retType == ""
    requires var hr := perl.call(coderef, [], errBefore); |hr.values| == 1 && |hr.err| <= |errBefore|
    ensures var v := perl.call(coderef, [], errBefore).values[0];
      && CallbackResult(perl, table, index, first, ap, false, errBefore) == Return(perl.popInt(v))
      && CallbackResult(perl, table, index, first, ap, true, errBefore) == Return(perl.popInt(v))
  {
    assert DecodeArgs(perl, [], first, ap) == Ok([]);
  }

  /** A string with no NUL is seen whole, and whatever follows a NUL is
      never seen: a signature ends at its first NUL. */
  lemma CStrStopsAtNul(s: string, rest: string)
    requires '\0' !in s
    ensures CStr(s) == s
    ensures CStr(s + "\0" + rest) == s
  {
    var s' := s + "\0" + rest;
    assert s'[..|s|] == s && s'[|s|] == '\0';
    CStrPrefix(s', |s|);
    CStrPrefix(s, |s|);
  }

  /** A two-integer signature: the first argument and one va_list slot are
      passed in order, and an integer result comes back. */
  lemma IntPairExample(perl: Perl, table: seq<Entry>, coderef: nat)
    requires |table| == 1 && table[0] == Entry(0, Some(coderef), "ii", "i")
    requires perl.call == ((c: nat, args: seq<Scalar>, e: string) =>
                             HostReturn(if |args| == 2 && args[0].IV? && args[1].IV? then [IV(args[0].i + args[1].i)] else [], e))
    requires forall n :: perl.popInt(IV(n)) == n
    ensures CallbackResult(perl, table, 0, 3, [4], false, "") == Return(7)
  {
    var sig := "ii";
    CStrPrefix(sig, 2);
    assert sig[..2] == sig && sig[..1] == "i";
    assert DecodeArgs(perl, sig[..1], 3, [4]) == Ok([IV(3)]);
    assert |sig| == 2 && sig[1] == 'i' && [4][1 - 1] == 4;
    assert DecodeLater(perl, sig[1], 4) == Ok(IV(4));
    assert [IV(3)] + [IV(4)] == [IV(3), IV(4)];
    assert DecodeArgs(perl, sig, 3, [4]) == Ok([IV(3), IV(4)]);
  }
}
