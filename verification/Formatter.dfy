/**
 * The formatter as the library updates it: pad level and line flag per write, and a format loop over
 * two views of the format string, the start of the pending literal text and the read position.
 */
module Formatter {
  import opened Utf8
  import opened FormatModel

  datatype FmtError = OK | ERROR | PANIC | UNDEFINED

  /**
   * How the outcome of the interpreter shows in the result and the formatter's state, if the target
   * takes `limit` bytes in all. A text longer than that is cut off there, and the call reports an error.
   */
  ghost predicate Shows(o: Outcome, e: FmtError, st: State, limit: nat) {
    match o
    case Done(t) => if |t.out| <= limit then e == OK && st == t else e == ERROR && st.out == t.out[..limit]
    case Failed(t) => e == ERROR && if |t.out| <= limit then st == t else st.out == t.out[..limit]
    case Panicked => e == PANIC || (e == ERROR && |st.out| == limit)
    case Undefined => e == UNDEFINED || (e == ERROR && |st.out| == limit)
  }

  /** What was cut off on the way is cut off at the end. */
  lemma CutOff(g: State, o: Outcome, st: State, limit: nat)
    requires |g.out| > limit && Shows(Done(g), ERROR, st, limit) && Continues(g, o)
    ensures Shows(o, ERROR, st, limit)
  {
  }

  lemma {:induction false} PadsContinue(pad: seq<Byte>, i: nat, n: nat)
    requires i <= n
    ensures Pads(pad, i) <= Pads(pad, n)
    decreases n
  {
    if i < n { PadsContinue(pad, i, n - 1); }
  }

  class StringFormatter {
    const config: Config
    /** The target takes this many bytes in all; the write that would exceed it fails. */
    const limit: nat
    var padLevel: nat
    var target: seq<Byte>
    var isLinePadded: bool

    ghost function St(): State
      reads this
    {
      State(target, padLevel, isLinePadded)
    }

    ghost predicate Valid()
      reads this
    {
      |target| <= limit
    }

    constructor (config: Config, limit: nat)
      ensures this.config == config && this.limit == limit && Valid() && St() == State([], 0, false)
    {
      this.config := config;
      this.limit := limit;
      padLevel, target, isLinePadded := 0, [], false;
    }

    method PadInc()
      modifies this
      ensures St() == Deepen(old(St()))
    {
      padLevel := padLevel + 1;
    }

    method PadDec()
      requires padLevel > 0
      modifies this
      ensures Done(St()) == Flatten(old(St()))
    {
      padLevel := padLevel - 1;
    }

    /** `stream_writer_write`: a write that fails takes the part of the text for which there is room. */
    method WriteNoPad(s: seq<Byte>) returns (e: FmtError)
      requires Valid()
      modifies this
      ensures Valid() && padLevel == old(padLevel) && isLinePadded == old(isLinePadded)
      ensures Shows(Done(old(St()).(out := old(target) + s)), e, St(), limit)
    {
      if |target| + |s| > limit {
        target := (target + s)[..limit];
        return ERROR;
      }
      target := target + s;
      return OK;
    }

    /** Pads unconditionally. */
    method PadLine() returns (e: FmtError)
      requires Valid()
      modifies this
      ensures Valid()
      ensures var st := old(St());
              Shows(Done(st.(out := st.out + Pads(config.pad, st.level), padded := true)), e, St(), limit)
    {
      for i := 0 to padLevel
        invariant Valid() && padLevel == old(padLevel) && isLinePadded == old(isLinePadded)
        invariant target == old(target) + Pads(config.pad, i)
      {
        e := WriteNoPad(config.pad);
        if e != OK {
          PadsContinue(config.pad, i + 1, padLevel);
          return;
        }
      }
      isLinePadded := true;
      return OK;
    }

    method Write(s: seq<Byte>) returns (e: FmtError)
      requires Valid()
      modifies this
      ensures Valid() && Shows(Done(Emit(config, old(St()), s)), e, St(), limit)
    {
      if !isLinePadded {
        for i := 0 to padLevel
          invariant Valid() && padLevel == old(padLevel) && isLinePadded == old(isLinePadded)
          invariant target == old(target) + Pads(config.pad, i)
        {
          e := WriteNoPad(config.pad);
          if e != OK {
            PadsContinue(config.pad, i + 1, padLevel);
            return;
          }
        }
        isLinePadded := true;
      }
      e := WriteNoPad(s);
    }

    method Writeln(s: seq<Byte>) returns (e: FmtError)
      requires Valid()
      modifies this
      ensures Valid() && Shows(Done(Emit(config, old(St()), s + [0x0a]).(padded := false)), e, St(), limit)
    {
      EmitTwice(config, St(), s, [0x0a]);
      e := Write(s);
      if e != OK {
        return;
      }
      e := WriteNoPad([0x0a]);
      if e != OK {
        return;
      }
      isLinePadded := false;
    }

    /** The pad test and unpadded write that the format loop repeats in place. */
    method WriteRun(s: seq<Byte>) returns (e: FmtError)
      requires Valid()
      modifies this
      ensures Valid() && Shows(Done(Emit(config, old(St()), s)), e, St(), limit)
    {
      if !isLinePadded {
        e := PadLine();
        if e != OK {
          return;
        }
      }
      e := WriteNoPad(s);
    }

    method DoAction(a: Action) returns (e: FmtError)
      requires Valid()
      modifies this
      ensures Valid() && Shows(Act(config, old(St()), a), e, St(), limit)
    {
      e := OK;
      match a
      case Write(s) => e := Write(s);
      case Writeln(s) => e := Writeln(s);
      case PadInc => PadInc();
      case PadDec => if padLevel == 0 { e := PANIC; } else { PadDec(); }
      case Refuse => e := ERROR;
    }

    /** What an object's own formatter does, until an action fails. */
    method DoActions(actions: seq<Action>) returns (e: FmtError)
      requires Valid()
      modifies this
      ensures Valid() && Shows(Perform(config, old(St()), actions), e, St(), limit)
    {
      ghost var goal := Perform(config, St(), actions);
      for i := 0 to |actions|
        invariant Valid() && Perform(config, St(), actions[i..]) == goal
      {
        ghost var o := Act(config, St(), actions[i]);
        assert actions[i..][0] == actions[i] && actions[i..][1..] == actions[i + 1..];
        e := DoAction(actions[i]);
        if e != OK {
          if o.Done? {
            PerformContinues(config, o.st, actions[i + 1..]);
            CutOff(o.st, goal, St(), limit);
          }
          return;
        }
      }
      return OK;
    }

    /**
     * The switch on the rune behind a percent sign. For `%l` the source reads the next rune at
     * `fmtStr`, which stands at the percent sign or at the `l` itself, so it finds neither `d` nor `u`.
     */
    method DoDirective(r: Rune, fmtStr: seq<Byte>, args: seq<Arg>) returns (e: FmtError, rest: seq<Arg>)
      requires Valid() && NextRune(fmtStr).Decoded? && NextRune(fmtStr).rune in {PERCENT, r} && r != PERCENT
      modifies this
      ensures Valid() && Shows(Directive(config, old(St()), r, args).0, e, St(), limit)
      ensures rest == Directive(config, old(St()), r, args).1
    {
      rest, e := args, OK;
      if r == 0x2b {
        PadInc();
      } else if r == 0x2d {
        if padLevel == 0 {
          return PANIC, rest;
        }
        PadDec();
      } else if r == 0x73 {
        if args == [] || !args[0].Str? { return UNDEFINED, rest; }
        e := Write(args[0].s);
        rest := args[1..];
      } else if r == 0x76 {
        if args == [] || !args[0].Obj? { return UNDEFINED, rest; }
        e := DoActions(args[0].actions);
        rest := args[1..];
      } else if r == 0x64 {
        if args == [] || !args[0].I32? { return UNDEFINED, rest; }
        e := WriteRun(config.text(args[0].n));
        rest := args[1..];
      } else if r == 0x75 {
        if args == [] || !args[0].U32? { return UNDEFINED, rest; }
        e := WriteRun(config.text(args[0].n));
        rest := args[1..];
      } else if r == 0x6c {
        var l := NextRune(fmtStr).rune;
        assert l != 0x64 && l != 0x75;
        e := ERROR;
      } else {
        e := ERROR;
      }
    }

    /** The text between two views of the same string, of which `e` is a suffix of `b`. */
    static function Between(b: seq<Byte>, e: seq<Byte>): seq<Byte>
      requires |e| <= |b|
    {
      b[..|b| - |e|]
    }

    /** The text before a percent sign at the read position is written out, if there is any. */
    method CloseRun(fmtStr: seq<Byte>, eFmtStr: seq<Byte>) returns (e: FmtError, fmtStr': seq<Byte>)
      requires Valid() && |eFmtStr| < |fmtStr|
      modifies this
      ensures var s := fmtStr[..|fmtStr| - |eFmtStr| - 1];
              && Valid() && Shows(Done(EmitRun(config, old(St()), s)), e, St(), limit)
              && (e == OK ==> fmtStr' == if s == [] then fmtStr else eFmtStr)
    {
      e, fmtStr' := OK, fmtStr;
      var s := Between(fmtStr, eFmtStr);
      s := s[..|s| - 1];
      if |s| > 0 {
        e := WriteRun(s);
        fmtStr' := eFmtStr;
      }
    }

    /**
     * The rune behind a percent sign. `s` starts at the sign; `run` was pending before it and is
     * written out, so that `fmtStr0` stands at the sign or behind it.
     */
    method BehindSign(
        ghost st: State, ghost run: seq<Byte>, ghost s: seq<Byte>,
        eFmtStr0: seq<Byte>, fmtStr0: seq<Byte>, args0: seq<Arg>)
      returns (e: FmtError, fmtStr: seq<Byte>, eFmtStr: seq<Byte>, args: seq<Arg>, ghost run': seq<Byte>)
      requires Valid()
      requires s != [] && NextRune(s).Decoded? && NextRune(s).rune == PERCENT && eFmtStr0 == s[NextRune(s).size..]
      requires var text := run + Lead(s, NextRune(s));
               St() == EmitRun(config, st, text) && fmtStr0 == if text == [] then s else eFmtStr0
      modifies this
      ensures Valid()
      ensures e != OK ==> Shows(Pending(config, st, run, s, args0).outcome, e, St(), limit)
      ensures e == OK ==> |eFmtStr| < |s| && fmtStr == run' + eFmtStr
      ensures e == OK ==> Pending(config, st, run, s, args0) == Pending(config, St(), run', eFmtStr, args)
    {
      fmtStr, eFmtStr, args, run' := fmtStr0, eFmtStr0, args0, [];
      var p := NextRune(eFmtStr);
      if !p.Decoded? {
        return PANIC, fmtStr, eFmtStr, args, run';
      }
      eFmtStr := eFmtStr[p.size..];
      assert eFmtStr == s[HeadOf(s).width..];
      if p.rune == PERCENT {
        PendingSigns(config, st, run, s, args);
        run' := SignsRun(run, s);
        return OK, fmtStr, eFmtStr, args, run';
      }
      e, fmtStr, args := Directed(p.rune, st, run, s, eFmtStr, fmtStr, args);
    }

    /** A directive that ends the literal text. */
    method Directed(
        r: Rune, ghost st: State, ghost run: seq<Byte>, ghost s: seq<Byte>,
        eFmtStr: seq<Byte>, fmtStr0: seq<Byte>, args0: seq<Arg>)
      returns (e: FmtError, fmtStr: seq<Byte>, args: seq<Arg>)
      requires Valid()
      requires s != [] && HeadOf(s).Directed? && HeadOf(s).rune == r && r != PERCENT
      requires eFmtStr == s[HeadOf(s).width..]
      requires St() == EmitRun(config, st, run + Lead(s, NextRune(s)))
      requires NextRune(fmtStr0).Decoded? && NextRune(fmtStr0).rune in {PERCENT, r}
      modifies this
      ensures Valid()
      ensures e != OK ==> Shows(Pending(config, st, run, s, args0).outcome, e, St(), limit)
      ensures e == OK ==> fmtStr == eFmtStr
      ensures e == OK ==> Pending(config, st, run, s, args0) == Pending(config, St(), [], eFmtStr, args)
    {
      ghost var (o, rest) := Directive(config, St(), r, args0);
      PendingDirective(config, st, run, s, args0);
      e, args := DoDirective(r, fmtStr0, args0);
      fmtStr := eFmtStr;
      if e != OK && o.Done? {
        PrintContinues(config, o.st, eFmtStr, true, rest);
        CutOff(o.st, Pending(config, st, run, s, args0).outcome, St(), limit);
      }
    }

    /**
     * The branch of the format loop for a percent sign at the read position `s`, behind the pending
     * text `run`.
     */
    method Percent(ghost run: seq<Byte>, s: seq<Byte>, fmtStr0: seq<Byte>, args0: seq<Arg>)
      returns (e: FmtError, fmtStr: seq<Byte>, eFmtStr: seq<Byte>, args: seq<Arg>, ghost run': seq<Byte>)
      requires Valid() && s != [] && fmtStr0 == run + s && NextRune(s).Decoded? && NextRune(s).rune == PERCENT
      modifies this
      ensures Valid()
      ensures e != OK ==> Shows(Pending(config, old(St()), run, s, args0).outcome, e, St(), limit)
      ensures e == OK ==> |eFmtStr| < |s| && fmtStr == run' + eFmtStr
      ensures e == OK ==> Pending(config, old(St()), run, s, args0) == Pending(config, St(), run', eFmtStr, args)
    {
      ghost var st := St();
      var d := NextRune(s);
      eFmtStr, args, run' := s[d.size..], args0, [];
      assert fmtStr0[..|fmtStr0| - |eFmtStr| - 1] == run + Lead(s, d);
      e, fmtStr := CloseRun(fmtStr0, eFmtStr);
      if e != OK {
        SignContinues(config, st, run, s, args0);
        CutOff(EmitRun(config, st, run + Lead(s, d)), Pending(config, st, run, s, args0).outcome, St(), limit);
        return;
      }
      e, fmtStr, eFmtStr, args, run' := BehindSign(st, run, s, eFmtStr, fmtStr, args0);
    }

    /** The branch of the format loop for any other rune at the read position `s`. */
    method Literal(ghost run: seq<Byte>, s: seq<Byte>, fmtStr0: seq<Byte>, ghost args: seq<Arg>)
      returns (e: FmtError, fmtStr: seq<Byte>, eFmtStr: seq<Byte>, ghost run': seq<Byte>)
      requires Valid() && s != [] && fmtStr0 == run + s && NextRune(s).Decoded? && NextRune(s).rune != PERCENT
      modifies this
      ensures Valid()
      ensures e != OK ==> Shows(Pending(config, old(St()), run, s, args).outcome, e, St(), limit)
      ensures e == OK ==> |eFmtStr| < |s| && fmtStr == run' + eFmtStr
      ensures e == OK ==> Pending(config, old(St()), run, s, args) == Pending(config, St(), run', eFmtStr, args)
    {
      ghost var st := St();
      var d := NextRune(s);
      e, fmtStr, eFmtStr := OK, fmtStr0, s[d.size..];
      run' := run + s[..d.size];
      assert Between(fmtStr, eFmtStr) == run';
      if d.rune == NEWLINE {
        PendingLine(config, st, run, s, args);
        e := WriteRun(Between(fmtStr, eFmtStr));
        if e != OK {
          ghost var g := Emit(config, st, run').(padded := false);
          PrintContinues(config, g, eFmtStr, true, args);
          CutOff(g, Pending(config, st, run, s, args).outcome, St(), limit);
          return;
        }
        fmtStr, run' := eFmtStr, [];
        isLinePadded := false;
      } else {
        PendingText(config, st, run, s, args);
      }
    }

    /**
     * The format loop. Whatever the format string, the arguments and the target, it ends like the
     * interpreter and leaves the same text, pad level and line flag, or the text as far as it was taken.
     */
    method WriteFmt(format: seq<Byte>, arguments: seq<Arg>) returns (e: FmtError)
      requires Valid()
      modifies this
      ensures Valid() && Shows(Print(Written, config, old(St()), format, true, arguments).outcome, e, St(), limit)
    {
      ghost var goal, run := Pending(config, St(), [], format, arguments), [];
      var fmtStr, eFmtStr, args := format, format, arguments;
      while |eFmtStr| > 0
        invariant Valid() && fmtStr == run + eFmtStr && goal == Pending(config, St(), run, eFmtStr, args)
        decreases |eFmtStr|
      {
        var d := NextRune(eFmtStr);
        if !d.Decoded? {
          return PANIC;
        }
        if d.rune == PERCENT {
          e, fmtStr, eFmtStr, args, run := Percent(run, eFmtStr, fmtStr, args);
        } else {
          e, fmtStr, eFmtStr, run := Literal(run, eFmtStr, fmtStr, args);
        }
        if e != OK {
          return;
        }
      }
      assert Between(fmtStr, eFmtStr) == run;
      var s := Between(fmtStr, eFmtStr);
      if |s| > 0 {
        e := Write(s);
        return;
      }
      return OK;
    }
  }
}
