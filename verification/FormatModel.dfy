/**
 * What the formatter of lib/core/fmt/fmt.h prints, as an interpreter that reads the format string
 * rune by rune and keeps no pending text. A line is padded when its first text is printed.
 */
module FormatModel {
  import opened Utf8

  const PERCENT: Rune := 0x25
  const NEWLINE: Rune := 0x0a

  /** The target so far, the pad level, and whether the current line has been padded. */
  datatype State = State(out: seq<Byte>, level: nat, padded: bool)

  /** What the formatter of an object may do in its turn; `Refuse` is to report an error of its own. */
  datatype Action = Write(s: seq<Byte>) | Writeln(s: seq<Byte>) | PadInc | PadDec | Refuse

  /** A variadic argument: a string, a number, or an object with the actions of its formatter. */
  datatype Arg = Str(s: seq<Byte>) | I32(n: int) | U32(n: int) | Obj(actions: seq<Action>)

  /** The pad string, and the text of a number. */
  datatype Config = Config(pad: seq<Byte>, text: int -> seq<Byte>)

  /** `Panicked` is a failed assertion of the source, `Undefined` an argument the call did not supply. */
  datatype Outcome = Done(st: State) | Failed(st: State) | Panicked | Undefined

  function Pads(pad: seq<Byte>, n: nat): seq<Byte> {
    if n == 0 then [] else Pads(pad, n - 1) + pad
  }

  function PadLine(c: Config, st: State): State {
    if st.padded then st else st.(out := st.out + Pads(c.pad, st.level), padded := true)
  }

  /** Prints text on the current line. */
  function Emit(c: Config, st: State, text: seq<Byte>): State {
    var p := PadLine(c, st);
    p.(out := p.out + text)
  }

  /** Pad level up or down; the source asserts that the level does not fall below zero. */
  function Deepen(st: State): State { st.(level := st.level + 1) }

  function Flatten(st: State): Outcome {
    if st.level == 0 then Panicked else Done(st.(level := st.level - 1))
  }

  function Act(c: Config, st: State, a: Action): Outcome {
    match a
    case Write(s) => Done(Emit(c, st, s))
    case Writeln(s) => Done(Emit(c, st, s + [0x0a]).(padded := false))
    case PadInc => Done(Deepen(st))
    case PadDec => Flatten(st)
    case Refuse => Failed(st)
  }

  function Perform(c: Config, st: State, actions: seq<Action>): Outcome
    decreases |actions|
  {
    if actions == [] then Done(st)
    else
      var o := Act(c, st, actions[0]);
      if o.Done? then Perform(c, o.st, actions[1..]) else o
  }

  /** A pending run of literal text; an empty one prints nothing and pads nothing. */
  function EmitRun(c: Config, st: State, run: seq<Byte>): State {
    if run == [] then st else Emit(c, st, run)
  }

  /**
   * How two percent signs print: `Written` is what the source does, both of them when no literal
   * text precedes them since the last directive, newline or start; `Intended` is the second alone.
   */
  datatype Percent = Written | Intended

  /** A directive other than `%%` ends literal text. */
  function Directive(c: Config, st: State, r: Rune, args: seq<Arg>): (o: (Outcome, seq<Arg>))
  {
    if r == 0x2b then (Done(Deepen(st)), args)
    else if r == 0x2d then (Flatten(st), args)
    else if r == 0x73 then
      if args != [] && args[0].Str? then (Done(Emit(c, st, args[0].s)), args[1..]) else (Undefined, args)
    else if r == 0x76 then
      if args != [] && args[0].Obj? then (Perform(c, st, args[0].actions), args[1..]) else (Undefined, args)
    else if r == 0x64 then
      if args != [] && args[0].I32? then (Done(Emit(c, st, c.text(args[0].n))), args[1..]) else (Undefined, args)
    else if r == 0x75 then
      if args != [] && args[0].U32? then (Done(Emit(c, st, c.text(args[0].n))), args[1..]) else (Undefined, args)
    else (Failed(st), args)
  }

  /**
   * The source drops one byte where it drops the percent sign, so the other bytes of a sign that is
   * not in shortest form count as literal text.
   */
  function Lead(s: seq<Byte>, d: Decoding): seq<Byte>
    requires d.Decoded? && 1 <= d.size <= |s|
  {
    s[..d.size - 1]
  }

  /** The first rune of a format string, or the first directive. */
  datatype Head = Broken | Directed(width: nat, rune: Rune) | Signs(width: nat) | Line(width: nat) | Text(width: nat)

  function HeadOf(s: seq<Byte>): (h: Head)
    requires s != []
    ensures !h.Broken? ==> 1 <= h.width <= |s|
    ensures h.Directed? || h.Signs? ==> NextRune(s).Decoded? && NextRune(s).size < h.width
  {
    var d := NextRune(s);
    if !d.Decoded? then Broken
    else if d.rune == PERCENT then
      var e := NextRune(s[d.size..]);
      if !e.Decoded? then Broken
      else if e.rune == PERCENT then Signs(d.size + e.size)
      else Directed(d.size + e.size, e.rune)
    else if d.rune == NEWLINE then Line(d.size)
    else Text(d.size)
  }

  /** `%%` without literal text before it; bytes left over from the first sign count as such. */
  predicate IsBare(s: seq<Byte>, atStart: bool)
    requires s != []
  {
    HeadOf(s).Signs? && atStart && NextRune(s).size == 1
  }

  /** What `%%` prints. */
  function SignsText(mode: Percent, s: seq<Byte>, atStart: bool): seq<Byte>
    requires s != [] && HeadOf(s).Signs?
  {
    var n, w := NextRune(s).size, HeadOf(s).width;
    if mode.Written? && IsBare(s, atStart) then s[..w] else s[n..w]
  }

  /** One step: the outcome, the arguments left, and whether no literal text is pending now. */
  datatype Step = Step(outcome: Outcome, args: seq<Arg>, atStart: bool)

  function PrintHead(mode: Percent, c: Config, st: State, s: seq<Byte>, atStart: bool, args: seq<Arg>): Step
    requires s != []
  {
    var h := HeadOf(s);
    match h
    case Broken => Step(Panicked, args, atStart)
    case Directed(_, r) =>
      var o := Directive(c, EmitRun(c, st, Lead(s, NextRune(s))), r, args);
      Step(o.0, o.1, true)
    case Signs(_) =>
      Step(Done(Emit(c, EmitRun(c, st, Lead(s, NextRune(s))), SignsText(mode, s, atStart))), args, false)
    case Line(w) => Step(Done(Emit(c, st, s[..w]).(padded := false)), args, true)
    case Text(w) => Step(Done(Emit(c, st, s[..w])), args, false)
  }

  /** Prints what is left of a format string; `atStart` says that no literal text is pending. */
  function Print(mode: Percent, c: Config, st: State, s: seq<Byte>, atStart: bool, args: seq<Arg>): Step
    decreases |s|
  {
    if s == [] then Step(Done(st), args, atStart)
    else
      var t := PrintHead(mode, c, st, s, atStart, args);
      if t.outcome.Done? && !HeadOf(s).Broken? then
        Print(mode, c, t.outcome.st, s[HeadOf(s).width..], t.atStart, t.args)
      else t
  }

  // ---------------------------------------------------------------- text in pieces

  lemma EmitTwice(c: Config, st: State, a: seq<Byte>, b: seq<Byte>)
    ensures Emit(c, Emit(c, st, a), b) == Emit(c, st, a + b)
  {
    var p := PadLine(c, st);
    assert p.out + a + b == p.out + (a + b);
  }

  /** The first rune of a string does not depend on what follows it. */
  lemma NextRunePrefix(s: seq<Byte>, t: seq<Byte>)
    requires NextRune(s).Decoded?
    ensures NextRune(s + t) == NextRune(s)
  {
  }

  lemma HeadPrefix(a: seq<Byte>, b: seq<Byte>)
    requires a != [] && !HeadOf(a).Broken?
    ensures HeadOf(a + b) == HeadOf(a) && NextRune(a + b) == NextRune(a)
  {
    var n := NextRune(a).size;
    NextRunePrefix(a, b);
    assert (a + b)[n..] == a[n..] + b;
    if NextRune(a).rune == PERCENT { NextRunePrefix(a[n..], b); }
  }

  lemma PrintHeadPrefix(mode: Percent, c: Config, st: State, a: seq<Byte>, b: seq<Byte>, atStart: bool, args: seq<Arg>)
    requires a != [] && !HeadOf(a).Broken?
    ensures HeadOf(a + b) == HeadOf(a)
    ensures PrintHead(mode, c, st, a + b, atStart, args) == PrintHead(mode, c, st, a, atStart, args)
  {
    HeadPrefix(a, b);
    var w, n := HeadOf(a).width, NextRune(a).size;
    assert (a + b)[..w] == a[..w];
    if HeadOf(a).Directed? || HeadOf(a).Signs? {
      assert Lead(a + b, NextRune(a + b)) == Lead(a, NextRune(a));
      assert (a + b)[n..w] == a[n..w];
    }
  }

  /** Printing `a + b` is printing `a` and then `b`, with the arguments and the pending-text flag that `a` leaves. */
  lemma {:induction false} PrintSplit(
    mode: Percent, c: Config, st: State, a: seq<Byte>, b: seq<Byte>, atStart: bool, args: seq<Arg>)
    requires Print(mode, c, st, a, atStart, args).outcome.Done?
    ensures var t := Print(mode, c, st, a, atStart, args);
            Print(mode, c, st, a + b, atStart, args) == Print(mode, c, t.outcome.st, b, t.atStart, t.args)
    decreases |a|
  {
    if a == [] {
      assert a + b == b;
    } else {
      var t, w := PrintHead(mode, c, st, a, atStart, args), HeadOf(a).width;
      PrintHeadPrefix(mode, c, st, a, b, atStart, args);
      assert (a + b)[w..] == a[w..] + b;
      PrintSplit(mode, c, t.outcome.st, a[w..], b, t.atStart, t.args);
    }
  }

  // ---------------------------------------------------------------- percent signs

  /** The number of bare `%%` in a format string. */
  function Bare(s: seq<Byte>, atStart: bool): nat
    decreases |s|
  {
    if s == [] || HeadOf(s).Broken? then 0
    else (if IsBare(s, atStart) then 1 else 0) + Bare(s[HeadOf(s).width..], HeadOf(s).Directed? || HeadOf(s).Line?)
  }

  /** Two states that differ at most in the text printed so far. */
  predicate SameButText(a: State, b: State) {
    a.level == b.level && a.padded == b.padded
  }

  /** How much more text `a` has than `b`. */
  function Surplus(a: State, b: State): int { |a.out| - |b.out| }

  lemma EmitSame(c: Config, a: State, b: State, t: seq<Byte>, u: seq<Byte>)
    requires SameButText(a, b)
    ensures SameButText(Emit(c, a, t), Emit(c, b, u))
    ensures Surplus(Emit(c, a, t), Emit(c, b, u)) == Surplus(a, b) + |t| - |u|
  {
  }

  /** The same outcome, up to the text printed so far, which is longer by `d`. */
  predicate Shifted(o: Outcome, p: Outcome, d: int) {
    match (o, p)
    case (Done(a), Done(b)) => SameButText(a, b) && Surplus(a, b) == d
    case (Failed(a), Failed(b)) => SameButText(a, b) && Surplus(a, b) == d
    case _ => o == p && !o.Done? && !o.Failed?
  }

  lemma ActShifted(c: Config, a: State, b: State, x: Action)
    requires SameButText(a, b)
    ensures Shifted(Act(c, a, x), Act(c, b, x), Surplus(a, b))
  {
    match x
    case Write(s) => EmitSame(c, a, b, s, s);
    case Writeln(s) => EmitSame(c, a, b, s + [0x0a], s + [0x0a]);
    case _ =>
  }

  lemma {:induction false} PerformShifted(c: Config, a: State, b: State, actions: seq<Action>)
    requires SameButText(a, b)
    ensures Shifted(Perform(c, a, actions), Perform(c, b, actions), Surplus(a, b))
    decreases |actions|
  {
    if actions != [] {
      ActShifted(c, a, b, actions[0]);
      var o, p := Act(c, a, actions[0]), Act(c, b, actions[0]);
      if o.Done? { PerformShifted(c, o.st, p.st, actions[1..]); }
    }
  }

  /** A directive does the same whatever text was printed before. */
  lemma DirectiveShifted(c: Config, a: State, b: State, r: Rune, args: seq<Arg>)
    requires SameButText(a, b)
    ensures var (o, rest) := Directive(c, a, r, args);
            var (p, rest') := Directive(c, b, r, args);
            rest == rest' && Shifted(o, p, Surplus(a, b))
  {
    if args != [] {
      match args[0]
      case Str(s) => EmitSame(c, a, b, s, s);
      case I32(n) => EmitSame(c, a, b, c.text(n), c.text(n));
      case U32(n) => EmitSame(c, a, b, c.text(n), c.text(n));
      case Obj(actions) => PerformShifted(c, a, b, actions);
    }
  }

  /** One step of the source prints one sign more than intended exactly at a bare `%%`. */
  lemma ExtraAtHead(c: Config, a: State, b: State, s: seq<Byte>, atStart: bool, args: seq<Arg>)
    requires s != [] && SameButText(a, b) && PrintHead(Written, c, a, s, atStart, args).outcome.Done?
    ensures var t := PrintHead(Written, c, a, s, atStart, args);
            var u := PrintHead(Intended, c, b, s, atStart, args);
            && u.outcome.Done? && t.args == u.args && t.atStart == u.atStart
            && t.atStart == (HeadOf(s).Directed? || HeadOf(s).Line?)
            && SameButText(t.outcome.st, u.outcome.st)
            && Surplus(t.outcome.st, u.outcome.st) == Surplus(a, b) + if IsBare(s, atStart) then 1 else 0
  {
    match HeadOf(s)
    case Directed(_, r) =>
      var lead := Lead(s, NextRune(s));
      EmitSame(c, a, b, lead, lead);
      DirectiveShifted(c, EmitRun(c, a, lead), EmitRun(c, b, lead), r, args);
    case Signs(_) =>
      var lead := Lead(s, NextRune(s));
      EmitSame(c, a, b, lead, lead);
      EmitSame(c, EmitRun(c, a, lead), EmitRun(c, b, lead),
               SignsText(Written, s, atStart), SignsText(Intended, s, atStart));
    case Line(w) => EmitSame(c, a, b, s[..w], s[..w]);
    case Text(w) => EmitSame(c, a, b, s[..w], s[..w]);
  }

  /** The source prints one percent sign too many for every bare `%%`, and differs in nothing else. */
  lemma {:induction false} ExtraPercents(c: Config, a: State, b: State, s: seq<Byte>, atStart: bool, args: seq<Arg>)
    requires SameButText(a, b) && Print(Written, c, a, s, atStart, args).outcome.Done?
    ensures var t := Print(Written, c, a, s, atStart, args);
            var u := Print(Intended, c, b, s, atStart, args);
            && u.outcome.Done? && t.args == u.args && SameButText(t.outcome.st, u.outcome.st)
            && Surplus(t.outcome.st, u.outcome.st) == Surplus(a, b) + Bare(s, atStart)
    decreases |s|
  {
    if s != [] {
      ExtraAtHead(c, a, b, s, atStart, args);
      var t, u := PrintHead(Written, c, a, s, atStart, args), PrintHead(Intended, c, b, s, atStart, args);
      ExtraPercents(c, t.outcome.st, u.outcome.st, s[HeadOf(s).width..], t.atStart, t.args);
    }
  }

  /** Without bare percent signs the two readings print the same, whatever the outcome. */
  lemma {:induction false} NoBareSame(c: Config, st: State, s: seq<Byte>, atStart: bool, args: seq<Arg>)
    requires Bare(s, atStart) == 0
    ensures Print(Written, c, st, s, atStart, args) == Print(Intended, c, st, s, atStart, args)
    decreases |s|
  {
    if s != [] {
      var t := PrintHead(Written, c, st, s, atStart, args);
      if t.outcome.Done? { NoBareSame(c, t.outcome.st, s[HeadOf(s).width..], t.atStart, t.args); }
    }
  }

  /**
   * A formatted print that completes shows one percent sign for each `%%` if and only if literal
   * text precedes every `%%` since the last directive, newline or start of the format string.
   */
  lemma PercentExactlyWhen(c: Config, st: State, s: seq<Byte>, args: seq<Arg>)
    requires Print(Written, c, st, s, true, args).outcome.Done?
    ensures Print(Written, c, st, s, true, args) == Print(Intended, c, st, s, true, args) <==> Bare(s, true) == 0
  {
    ExtraPercents(c, st, st, s, true, args);
    if Bare(s, true) == 0 { NoBareSame(c, st, s, true, args); }
  }

  // ---------------------------------------------------------------- formatting in pieces

  lemma HeadShifted(c: Config, a: State, b: State, s: seq<Byte>, atStart: bool, args: seq<Arg>)
    requires s != [] && SameButText(a, b)
    ensures var t, u := PrintHead(Written, c, a, s, atStart, args), PrintHead(Written, c, b, s, atStart, args);
            t.args == u.args && t.atStart == u.atStart && Shifted(t.outcome, u.outcome, Surplus(a, b))
  {
    match HeadOf(s)
    case Broken =>
    case Directed(_, r) =>
      var lead := Lead(s, NextRune(s));
      EmitSame(c, a, b, lead, lead);
      DirectiveShifted(c, EmitRun(c, a, lead), EmitRun(c, b, lead), r, args);
    case Signs(_) =>
      var lead, text := Lead(s, NextRune(s)), SignsText(Written, s, atStart);
      EmitSame(c, a, b, lead, lead);
      EmitSame(c, EmitRun(c, a, lead), EmitRun(c, b, lead), text, text);
    case Line(w) => EmitSame(c, a, b, s[..w], s[..w]);
    case Text(w) => EmitSame(c, a, b, s[..w], s[..w]);
  }

  /** The text printed before does not matter to what a print does. */
  lemma {:induction false} PrintShifted(c: Config, a: State, b: State, s: seq<Byte>, atStart: bool, args: seq<Arg>)
    requires SameButText(a, b)
    ensures var t, u := Print(Written, c, a, s, atStart, args), Print(Written, c, b, s, atStart, args);
            t.args == u.args && Shifted(t.outcome, u.outcome, Surplus(a, b))
    decreases |s|
  {
    if s != [] {
      HeadShifted(c, a, b, s, atStart, args);
      var t, u := PrintHead(Written, c, a, s, atStart, args), PrintHead(Written, c, b, s, atStart, args);
      if t.outcome.Done? && !HeadOf(s).Broken? {
        PrintShifted(c, t.outcome.st, u.outcome.st, s[HeadOf(s).width..], t.atStart, t.args);
      }
    }
  }

  /** A string that starts with a bare `%%` prints one sign more when no literal text is pending. */
  lemma BareHeadShifts(c: Config, st: State, s: seq<Byte>, args: seq<Arg>)
    requires s != [] && IsBare(s, true)
    ensures var t, u := Print(Written, c, st, s, true, args), Print(Written, c, st, s, false, args);
            t.args == u.args && Shifted(t.outcome, u.outcome, 1)
  {
    var lead := Lead(s, NextRune(s));
    var t, u := PrintHead(Written, c, st, s, true, args), PrintHead(Written, c, st, s, false, args);
    EmitSame(c, EmitRun(c, st, lead), EmitRun(c, st, lead), SignsText(Written, s, true), SignsText(Written, s, false));
    PrintShifted(c, t.outcome.st, u.outcome.st, s[HeadOf(s).width..], false, args);
  }

  /** A string that does not start with a bare `%%` prints the same whether literal text is pending or not. */
  lemma OtherHeadSame(c: Config, st: State, s: seq<Byte>, args: seq<Arg>)
    requires s != [] ==> !IsBare(s, true)
    ensures var t, u := Print(Written, c, st, s, true, args), Print(Written, c, st, s, false, args);
            t.outcome == u.outcome && t.args == u.args
  {
  }

  /**
   * Formatting `a + b` is formatting `a` and then `b` if and only if `b` does not start with `%%` that
   * literal text of `a` precedes, or formatting `b` panics anyway.
   */
  lemma FormatInPieces(c: Config, st: State, a: seq<Byte>, b: seq<Byte>, args: seq<Arg>)
    requires Print(Written, c, st, a, true, args).outcome.Done?
    ensures var t := Print(Written, c, st, a, true, args);
            var u := Print(Written, c, t.outcome.st, b, true, t.args);
            var w := Print(Written, c, st, a + b, true, args);
            w.outcome == u.outcome && w.args == u.args <==>
            t.atStart || b == [] || !IsBare(b, true) || u.outcome.Panicked? || u.outcome.Undefined?
  {
    var t := Print(Written, c, st, a, true, args);
    PrintSplit(Written, c, st, a, b, true, args);
    if b != [] && IsBare(b, true) {
      BareHeadShifts(c, t.outcome.st, b, t.args);
    } else {
      OtherHeadSame(c, t.outcome.st, b, t.args);
    }
  }

  /** A format string without a percent sign has no directive, so it always prints in pieces; this is its text. */
  predicate PercentFree(s: seq<Byte>)
    decreases |s|
  {
    s == [] || ((HeadOf(s).Text? || HeadOf(s).Line?) && PercentFree(s[HeadOf(s).width..]))
  }

  lemma {:induction false} PercentFreePrints(c: Config, st: State, s: seq<Byte>, atStart: bool, args: seq<Arg>)
    requires PercentFree(s)
    ensures Print(Written, c, st, s, atStart, args).outcome.Done? &&
            Print(Written, c, st, s, atStart, args).args == args
    ensures Bare(s, atStart) == 0
    decreases |s|
  {
    if s != [] {
      var t := PrintHead(Written, c, st, s, atStart, args);
      PercentFreePrints(c, t.outcome.st, s[HeadOf(s).width..], t.atStart, args);
    }
  }

  /** Text without percent signs may be formatted in any two pieces that split it at a rune boundary. */
  lemma TextInPieces(c: Config, st: State, a: seq<Byte>, b: seq<Byte>)
    requires PercentFree(a) && PercentFree(b)
    ensures var t := Print(Written, c, st, a, true, []);
            && t.outcome.Done?
            && Print(Written, c, st, a + b, true, []).outcome == Print(Written, c, t.outcome.st, b, true, []).outcome
  {
    PercentFreePrints(c, st, a, true, []);
    PercentFreePrints(c, st, b, true, []);
    FormatInPieces(c, st, a, b, []);
  }

  /** `%%` at the very start of a format string prints two signs. */
  lemma BarePercentPrintsTwo(c: Config, st: State)
    requires st.padded
    ensures Print(Written, c, st, [0x25, 0x25], true, []).outcome == Done(st.(out := st.out + [0x25, 0x25]))
    ensures Print(Intended, c, st, [0x25, 0x25], true, []).outcome == Done(st.(out := st.out + [0x25]))
  {
    var s: seq<Byte> := [0x25, 0x25];
    assert s[1..] == [0x25] && s[2..] == [];
    assert NextRune(s) == Decoded(0x25, 1) && NextRune(s[1..]) == Decoded(0x25, 1);
  }

  // ---------------------------------------------------------------- pending literal text

  /** What printing comes to when the literal text `run` is pending and `s` is still to be read. */
  function Pending(c: Config, st: State, run: seq<Byte>, s: seq<Byte>, args: seq<Arg>): Step {
    Print(Written, c, EmitRun(c, st, run), s, run == [], args)
  }

  lemma EmitRunTwice(c: Config, st: State, a: seq<Byte>, b: seq<Byte>)
    ensures EmitRun(c, EmitRun(c, st, a), b) == EmitRun(c, st, a + b)
    ensures b != [] ==> Emit(c, EmitRun(c, st, a), b) == Emit(c, st, a + b)
  {
    EmitTwice(c, st, a, b);
    if a == [] { assert a + b == b; }
    if b == [] { assert a + b == a; }
  }

  lemma PendingText(c: Config, st: State, run: seq<Byte>, s: seq<Byte>, args: seq<Arg>)
    requires s != [] && HeadOf(s).Text?
    ensures var w := HeadOf(s).width; Pending(c, st, run, s, args) == Pending(c, st, run + s[..w], s[w..], args)
  {
    EmitRunTwice(c, st, run, s[..HeadOf(s).width]);
  }

  lemma PendingLine(c: Config, st: State, run: seq<Byte>, s: seq<Byte>, args: seq<Arg>)
    requires s != [] && HeadOf(s).Line?
    ensures var w := HeadOf(s).width;
            Pending(c, st, run, s, args) == Pending(c, Emit(c, st, run + s[..w]).(padded := false), [], s[w..], args)
  {
    EmitRunTwice(c, st, run, s[..HeadOf(s).width]);
  }

  /** The pending text once the sign at `s` has been passed, and two signs have been read. */
  function SignsRun(run: seq<Byte>, s: seq<Byte>): seq<Byte>
    requires s != [] && HeadOf(s).Signs?
  {
    var n, w := NextRune(s).size, HeadOf(s).width;
    if run + Lead(s, NextRune(s)) == [] then s[..w] else s[n..w]
  }

  lemma PendingSigns(c: Config, st: State, run: seq<Byte>, s: seq<Byte>, args: seq<Arg>)
    requires s != [] && HeadOf(s).Signs?
    ensures var (n, w, lead) := (NextRune(s).size, HeadOf(s).width, Lead(s, NextRune(s)));
            && SignsRun(run, s) + s[w..] == (if run + lead == [] then s else s[n..])
            && Pending(c, st, run, s, args) == Pending(c, EmitRun(c, st, run + lead), SignsRun(run, s), s[w..], args)
  {
    EmitRunTwice(c, st, run, Lead(s, NextRune(s)));
  }

  lemma PendingDirective(c: Config, st: State, run: seq<Byte>, s: seq<Byte>, args: seq<Arg>)
    requires s != [] && HeadOf(s).Directed?
    ensures var o := Directive(c, EmitRun(c, st, run + Lead(s, NextRune(s))), HeadOf(s).rune, args);
            Pending(c, st, run, s, args) ==
            if o.0.Done? then Pending(c, o.0.st, [], s[HeadOf(s).width..], o.1) else Step(o.0, o.1, true)
  {
    EmitRunTwice(c, st, run, Lead(s, NextRune(s)));
  }

  // ---------------------------------------------------------------- text only grows

  /** The outcome's text, if it has one, continues that of the state. */
  predicate Continues(st: State, o: Outcome) {
    match o
    case Done(t) => st.out <= t.out
    case Failed(t) => st.out <= t.out
    case _ => true
  }

  lemma {:induction false} PerformContinues(c: Config, st: State, actions: seq<Action>)
    ensures Continues(st, Perform(c, st, actions))
    decreases |actions|
  {
    if actions != [] {
      var o := Act(c, st, actions[0]);
      if o.Done? { PerformContinues(c, o.st, actions[1..]); }
    }
  }

  lemma DirectiveContinues(c: Config, st: State, r: Rune, args: seq<Arg>)
    ensures Continues(st, Directive(c, st, r, args).0)
  {
    if args != [] && args[0].Obj? { PerformContinues(c, st, args[0].actions); }
  }

  lemma HeadContinues(c: Config, st: State, s: seq<Byte>, atStart: bool, args: seq<Arg>)
    requires s != []
    ensures Continues(st, PrintHead(Written, c, st, s, atStart, args).outcome)
    ensures HeadOf(s).Directed? || HeadOf(s).Signs? ==>
              Continues(EmitRun(c, st, Lead(s, NextRune(s))), PrintHead(Written, c, st, s, atStart, args).outcome)
  {
    if HeadOf(s).Directed? {
      var lead := EmitRun(c, st, Lead(s, NextRune(s)));
      DirectiveContinues(c, lead, HeadOf(s).rune, args);
    }
  }

  /** Printing never takes text back. */
  lemma {:induction false} PrintContinues(c: Config, st: State, s: seq<Byte>, atStart: bool, args: seq<Arg>)
    ensures Continues(st, Print(Written, c, st, s, atStart, args).outcome)
    decreases |s|
  {
    if s != [] {
      HeadContinues(c, st, s, atStart, args);
      var t := PrintHead(Written, c, st, s, atStart, args);
      if t.outcome.Done? && !HeadOf(s).Broken? {
        PrintContinues(c, t.outcome.st, s[HeadOf(s).width..], t.atStart, t.args);
      }
    }
  }

  /** Once the text before a percent sign is printed, the print goes on from there. */
  lemma SignContinues(c: Config, st: State, run: seq<Byte>, s: seq<Byte>, args: seq<Arg>)
    requires s != [] && NextRune(s).Decoded? && NextRune(s).rune == PERCENT
    ensures Continues(EmitRun(c, st, run + Lead(s, NextRune(s))), Pending(c, st, run, s, args).outcome)
  {
    var st' := EmitRun(c, st, run);
    var t := PrintHead(Written, c, st', s, run == [], args);
    EmitRunTwice(c, st, run, Lead(s, NextRune(s)));
    if !HeadOf(s).Broken? {
      HeadContinues(c, st', s, run == [], args);
      if t.outcome.Done? { PrintContinues(c, t.outcome.st, s[HeadOf(s).width..], t.atStart, t.args); }
    }
  }
}
