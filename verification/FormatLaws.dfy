/**
 * What format strings mean: a format written as words, arguments, level changes, line breaks and signs
 * prints what these stand for, on lines that are padded with one copy of the pad string for each level.
 */
module FormatLaws {
  import opened Utf8
  import opened FormatModel

  // ---------------------------------------------------------------- lines

  /** `n` copies of the pad string. */
  function Repeat(pad: seq<Byte>, n: nat): seq<Byte> {
    if n == 0 then [] else pad + Repeat(pad, n - 1)
  }

  lemma {:induction false} RepeatOneMore(pad: seq<Byte>, n: nat)
    ensures Repeat(pad, n) + pad == Repeat(pad, n + 1)
  {
    if n == 0 {
      assert [] + pad == pad + [];
    } else {
      RepeatOneMore(pad, n - 1);
      assert pad + Repeat(pad, n - 1) + pad == pad + (Repeat(pad, n - 1) + pad);
    }
  }

  lemma {:induction false} PadsRepeat(pad: seq<Byte>, n: nat)
    ensures Pads(pad, n) == Repeat(pad, n)
  {
    if n > 0 {
      PadsRepeat(pad, n - 1);
      RepeatOneMore(pad, n - 1);
    }
  }

  /** Text on the current line, with the padding first if the line has none yet. */
  function OnLine(c: Config, st: State, text: seq<Byte>): State {
    st.(out := st.out + (if st.padded then [] else Repeat(c.pad, st.level)) + text, padded := true)
  }

  lemma EmitOnLine(c: Config, st: State, text: seq<Byte>)
    ensures Emit(c, st, text) == OnLine(c, st, text)
  {
    PadsRepeat(c.pad, st.level);
    assert st.out + [] == st.out;
  }

  // ---------------------------------------------------------------- formats as tokens

  /** `Show(b)` is a percent sign and the byte `b`; `Sign` is two percent signs. */
  datatype Token = Word(text: seq<Byte>) | Show(letter: Byte) | In | Out | Break | Sign

  function Source(t: Token): seq<Byte> {
    match t
    case Word(text) => text
    case Show(b) => [0x25, b]
    case In => [0x25, 0x2b]
    case Out => [0x25, 0x2d]
    case Break => [0x0a]
    case Sign => [0x25, 0x25]
  }

  function SourceOf(ts: seq<Token>): seq<Byte> {
    if ts == [] then [] else Source(ts[0]) + SourceOf(ts[1..])
  }

  /** Text of whole runes without percent signs and newlines. */
  predicate Plain(s: seq<Byte>)
    decreases |s|
  {
    s == [] || (HeadOf(s).Text? && Plain(s[HeadOf(s).width..]))
  }

  /** Words are plain, and `Show` stands for a letter that is neither a sign nor that of objects. */
  predicate Proper(ts: seq<Token>) {
    forall i :: 0 <= i < |ts| ==>
      match ts[i]
      case Word(text) => Plain(text)
      case Show(b) => b < 0x80 && b !in {0x25, 0x2b, 0x2d, 0x76}
      case _ => true
  }

  /** The letters `s`, `d` and `u` show a string, a signed and an unsigned number. */
  predicate Suits(letter: Byte, a: Arg) {
    (letter == 0x73 && a.Str?) || (letter == 0x64 && a.I32?) || (letter == 0x75 && a.U32?)
  }

  function Shown(c: Config, a: Arg): seq<Byte>
    requires !a.Obj?
  {
    match a
    case Str(s) => s
    case I32(n) => c.text(n)
    case U32(n) => c.text(n)
  }

  /** What one token does; `fresh0` says that no literal text is pending. */
  function PlayOne(c: Config, st: State, t: Token, fresh0: bool, args: seq<Arg>): Step {
    match t
    case Word(text) => if text == [] then Step(Done(st), args, fresh0) else Step(Done(OnLine(c, st, text)), args, false)
    case Show(b) =>
      if b !in {0x73, 0x64, 0x75} then Step(Failed(st), args, true)
      else if args != [] && Suits(b, args[0]) then Step(Done(OnLine(c, st, Shown(c, args[0]))), args[1..], true)
      else Step(Undefined, args, true)
    case In => Step(Done(State(st.out, st.level + 1, st.padded)), args, true)
    case Out => Step(if st.level == 0 then Panicked else Done(State(st.out, st.level - 1, st.padded)), args, true)
    case Break => Step(Done(OnLine(c, st, [0x0a]).(padded := false)), args, true)
    case Sign => Step(Done(OnLine(c, st, if fresh0 then [0x25, 0x25] else [0x25])), args, false)
  }

  function Play(c: Config, st: State, ts: seq<Token>, fresh0: bool, args: seq<Arg>): Step
    decreases |ts|
  {
    if ts == [] then Step(Done(st), args, fresh0)
    else
      var r := PlayOne(c, st, ts[0], fresh0, args);
      if r.outcome.Done? then Play(c, r.outcome.st, ts[1..], r.atStart, r.args) else r
  }

  lemma PlayCons(c: Config, st: State, t: Token, ts: seq<Token>, fresh0: bool, args: seq<Arg>)
    ensures var r := PlayOne(c, st, t, fresh0, args);
            Play(c, st, [t] + ts, fresh0, args) ==
            if r.outcome.Done? then Play(c, r.outcome.st, ts, r.atStart, r.args) else r
  {
    assert ([t] + ts)[1..] == ts;
  }

  // ---------------------------------------------------------------- printing is playing

  /** Text in two parts is text on the line. */
  lemma TextInTwo(c: Config, st: State, s: seq<Byte>, w: nat)
    requires w <= |s|
    ensures OnLine(c, Emit(c, st, s[..w]), s[w..]) == OnLine(c, st, s)
    ensures s[w..] == [] ==> Emit(c, st, s[..w]) == OnLine(c, st, s)
  {
    EmitOnLine(c, st, s);
    EmitOnLine(c, Emit(c, st, s[..w]), s[w..]);
    EmitTwice(c, st, s[..w], s[w..]);
    assert s == s[..w] + s[w..];
    if s[w..] == [] { assert s[..w] == s; }
  }

  lemma {:induction false} PlainPrints(c: Config, st: State, s: seq<Byte>, atStart: bool, args: seq<Arg>)
    requires Plain(s)
    ensures Print(Written, c, st, s, atStart, args) == PlayOne(c, st, Word(s), atStart, args)
    decreases |s|
  {
    if s != [] {
      var w := HeadOf(s).width;
      PlainPrints(c, Emit(c, st, s[..w]), s[w..], false, args);
      TextInTwo(c, st, s, w);
    }
  }

  /** A percent sign and an ASCII character. */
  lemma TwoBytes(b: Byte, rest: seq<Byte>)
    requires b < 0x80
    ensures var s := [0x25, b] + rest;
            HeadOf(s) == (if b == 0x25 then Signs(2) else Directed(2, b as Rune)) && NextRune(s) == Decoded(0x25, 1)
  {
    var s := [0x25, b] + rest;
    assert s[1..] == [b] + rest;
  }

  lemma DirectiveHead(c: Config, st: State, b: Byte, rest: seq<Byte>, atStart: bool, args: seq<Arg>)
    requires b < 0x80 && b != 0x25
    ensures var s := [0x25, b] + rest;
            var o := Directive(c, st, b as Rune, args);
            HeadOf(s).width == 2 && PrintHead(Written, c, st, s, atStart, args) == Step(o.0, o.1, true)
  {
    TwoBytes(b, rest);
    var s := [0x25, b] + rest;
    assert Lead(s, NextRune(s)) == [];
  }

  lemma ShowDoes(c: Config, st: State, b: Byte, args: seq<Arg>)
    requires b < 0x80 && b !in {0x25, 0x2b, 0x2d, 0x76}
    ensures var o := Directive(c, st, b as Rune, args); Step(o.0, o.1, true) == PlayOne(c, st, Show(b), true, args)
  {
    if args != [] && !args[0].Obj? { EmitOnLine(c, st, Shown(c, args[0])); }
  }

  lemma LevelsDo(c: Config, st: State, args: seq<Arg>)
    ensures var o := Directive(c, st, 0x2b, args); Step(o.0, o.1, true) == PlayOne(c, st, In, true, args)
    ensures var o := Directive(c, st, 0x2d, args); Step(o.0, o.1, true) == PlayOne(c, st, Out, true, args)
  {
  }

  lemma SignPrints(c: Config, st: State, rest: seq<Byte>, atStart: bool, args: seq<Arg>)
    ensures var s := [0x25, 0x25] + rest;
            HeadOf(s).width == 2 && PrintHead(Written, c, st, s, atStart, args) == PlayOne(c, st, Sign, atStart, args)
  {
    TwoBytes(0x25, rest);
    var s: seq<Byte> := [0x25, 0x25] + rest;
    assert Lead(s, NextRune(s)) == [] && s[..2] == [0x25, 0x25] && s[1..2] == [0x25];
    EmitOnLine(c, st, if atStart then [0x25, 0x25] else [0x25]);
  }

  lemma BreakPrints(c: Config, st: State, rest: seq<Byte>, atStart: bool, args: seq<Arg>)
    ensures var s := [0x0a] + rest;
            HeadOf(s).width == 1 && PrintHead(Written, c, st, s, atStart, args) == PlayOne(c, st, Break, atStart, args)
  {
    var s: seq<Byte> := [0x0a] + rest;
    assert s[..1] == [0x0a];
    EmitOnLine(c, st, [0x0a]);
  }

  /** A token other than a word is one step of printing. */
  lemma TokenHead(c: Config, st: State, t: Token, rest: seq<Byte>, atStart: bool, args: seq<Arg>)
    requires Proper([t]) && !t.Word?
    ensures var s := Source(t) + rest;
            && s != [] && !HeadOf(s).Broken? && HeadOf(s).width == |Source(t)|
            && PrintHead(Written, c, st, s, atStart, args) == PlayOne(c, st, t, atStart, args)
  {
    assert t == [t][0];
    match t
    case Show(b) =>
      DirectiveHead(c, st, b, rest, atStart, args);
      ShowDoes(c, st, b, args);
    case In =>
      DirectiveHead(c, st, 0x2b, rest, atStart, args);
      LevelsDo(c, st, args);
    case Out =>
      DirectiveHead(c, st, 0x2d, rest, atStart, args);
      LevelsDo(c, st, args);
    case Break => BreakPrints(c, st, rest, atStart, args);
    case Sign => SignPrints(c, st, rest, atStart, args);
  }

  /**
   * Printing a format does what its tokens say, whatever the arguments: same text, levels, arguments left
   * and outcome.
   */
  lemma {:induction false} PrintIsPlay(c: Config, st: State, ts: seq<Token>, atStart: bool, args: seq<Arg>)
    requires Proper(ts)
    ensures Print(Written, c, st, SourceOf(ts), atStart, args) == Play(c, st, ts, atStart, args)
    decreases |ts|
  {
    if ts != [] {
      var t, rest := ts[0], SourceOf(ts[1..]);
      var r := PlayOne(c, st, t, atStart, args);
      if r.outcome.Done? { PrintIsPlay(c, r.outcome.st, ts[1..], r.atStart, r.args); }
      if t.Word? {
        PlainPrints(c, st, t.text, atStart, args);
        PrintSplit(Written, c, st, t.text, rest, atStart, args);
      } else {
        assert t == [t][0];
        TokenHead(c, st, t, rest, atStart, args);
        assert (Source(t) + rest)[|Source(t)|..] == rest;
      }
    }
  }

  // ---------------------------------------------------------------- arguments

  /** Literal pieces with an argument between any two. */
  function Template(pieces: seq<seq<Byte>>, letters: seq<Byte>): seq<Token>
    requires |pieces| == |letters| + 1
  {
    if letters == [] then [Word(pieces[0])]
    else [Word(pieces[0]), Show(letters[0])] + Template(pieces[1..], letters[1..])
  }

  /** The pieces with the arguments' texts between them. */
  function Interleaved(c: Config, pieces: seq<seq<Byte>>, args: seq<Arg>): seq<Byte>
    requires |pieces| <= |args| + 1 && pieces != [] && forall i :: 0 <= i < |pieces| - 1 ==> !args[i].Obj?
  {
    if |pieces| == 1 then pieces[0]
    else pieces[0] + Shown(c, args[0]) + Interleaved(c, pieces[1..], args[1..])
  }

  predicate AllSuit(letters: seq<Byte>, args: seq<Arg>) {
    |letters| <= |args| && forall i :: 0 <= i < |letters| ==> Suits(letters[i], args[i])
  }

  lemma OnLineTwice(c: Config, st: State, s: seq<Byte>, t: seq<Byte>)
    ensures OnLine(c, OnLine(c, st, s), t) == OnLine(c, st, s + t)
  {
    EmitTwice(c, st, s, t);
    EmitOnLine(c, st, s);
    EmitOnLine(c, st, s + t);
    EmitOnLine(c, Emit(c, st, s), t);
  }

  /** One piece and one argument. */
  lemma PiecePlays(c: Config, st: State, piece: seq<Byte>, letter: Byte, ts: seq<Token>, fresh0: bool, args: seq<Arg>)
    requires st.padded && args != [] && Suits(letter, args[0])
    ensures Play(c, st, [Word(piece)] + ([Show(letter)] + ts), fresh0, args) ==
            Play(c, st.(out := st.out + piece + Shown(c, args[0])), ts, true, args[1..])
  {
    PlayCons(c, st, Word(piece), [Show(letter)] + ts, fresh0, args);
    var r := PlayOne(c, st, Word(piece), fresh0, args);
    var a := st.(out := st.out + piece);
    assert st.out + [] == st.out;
    assert r.outcome == Done(a) && r.args == args;
    PlayCons(c, a, Show(letter), ts, r.atStart, args);
    assert a.out + [] == a.out;
  }

  lemma LastPiece(c: Config, st: State, piece: seq<Byte>, fresh0: bool, args: seq<Arg>)
    requires st.padded
    ensures var r := Play(c, st, [Word(piece)], fresh0, args);
            r.outcome == Done(st.(out := st.out + piece)) && r.args == args
  {
    assert [Word(piece)] == [Word(piece)] + [] && st.out + [] == st.out;
    PlayCons(c, st, Word(piece), [], fresh0, args);
  }

  lemma FourTexts(a: seq<Byte>, b: seq<Byte>, d: seq<Byte>, e: seq<Byte>)
    ensures a + b + d + e == a + (b + d + e)
  {
  }

  lemma {:induction false} TemplatePlays(
    c: Config, st: State, pieces: seq<seq<Byte>>, letters: seq<Byte>, fresh0: bool, args: seq<Arg>)
    requires |pieces| == |letters| + 1 && AllSuit(letters, args) && st.padded
    ensures var r := Play(c, st, Template(pieces, letters), fresh0, args);
            r.outcome == Done(st.(out := st.out + Interleaved(c, pieces, args))) && r.args == args[|letters|..]
    decreases |letters|
  {
    if letters == [] {
      LastPiece(c, st, pieces[0], fresh0, args);
    } else {
      var rest, shown := Template(pieces[1..], letters[1..]), Shown(c, args[0]);
      assert Template(pieces, letters) == [Word(pieces[0])] + ([Show(letters[0])] + rest);
      PiecePlays(c, st, pieces[0], letters[0], rest, fresh0, args);
      TemplatePlays(c, st.(out := st.out + pieces[0] + shown), pieces[1..], letters[1..], true, args[1..]);
      FourTexts(st.out, pieces[0], shown, Interleaved(c, pieces[1..], args[1..]));
      assert args[1..][|letters| - 1..] == args[|letters|..];
    }
  }

  lemma {:induction false} TemplateProper(pieces: seq<seq<Byte>>, letters: seq<Byte>)
    requires |pieces| == |letters| + 1 && (forall i :: 0 <= i < |pieces| ==> Plain(pieces[i]))
    requires forall i :: 0 <= i < |letters| ==> letters[i] in {0x73, 0x64, 0x75}
    ensures Proper(Template(pieces, letters))
    decreases |letters|
  {
    if letters != [] { TemplateProper(pieces[1..], letters[1..]); }
  }

  /**
   * A format of literal pieces with `%s`, `%d` and `%u` between them, on a padded line, prints the pieces
   * with the arguments between them, one after the other, and leaves the arguments behind those.
   */
  lemma ArgumentsInOrder(c: Config, st: State, pieces: seq<seq<Byte>>, letters: seq<Byte>, args: seq<Arg>)
    requires |pieces| == |letters| + 1 && (forall i :: 0 <= i < |pieces| ==> Plain(pieces[i]))
    requires AllSuit(letters, args) && st.padded
    ensures var r := Print(Written, c, st, SourceOf(Template(pieces, letters)), true, args);
            r.outcome == Done(st.(out := st.out + Interleaved(c, pieces, args))) && r.args == args[|letters|..]
  {
    TemplateProper(pieces, letters);
    PrintIsPlay(c, st, Template(pieces, letters), true, args);
    TemplatePlays(c, st, pieces, letters, true, args);
  }

  // ---------------------------------------------------------------- levels

  /** Levels opened less levels closed. */
  function Depth(ts: seq<Token>): int {
    if ts == [] then 0 else Depth(ts[..|ts| - 1]) + match ts[|ts| - 1] case In => 1 case Out => -1 case _ => 0
  }

  /** No part of the format from its start closes more levels than are open. */
  ghost predicate Stays(ts: seq<Token>, level: nat) {
    forall n :: 0 <= n <= |ts| ==> level + Depth(ts[..n]) >= 0
  }

  lemma {:induction false} DepthCons(t: Token, ts: seq<Token>)
    ensures Depth([t] + ts) == Depth([t]) + Depth(ts)
    decreases |ts|
  {
    if ts == [] {
      assert [t] + ts == [t];
    } else {
      var last := |ts| - 1;
      assert ([t] + ts)[..|ts|] == [t] + ts[..last] && ([t] + ts)[|ts|] == ts[last];
      DepthCons(t, ts[..last]);
    }
  }

  lemma StaysCons(t: Token, ts: seq<Token>, level: nat)
    ensures Stays([t] + ts, level) <==> level + Depth([t]) >= 0 && Stays(ts, level + Depth([t]))
  {
    var all := [t] + ts;
    forall n | 0 <= n <= |ts| ensures Depth(all[..n + 1]) == Depth([t]) + Depth(ts[..n]) {
      assert all[..n + 1] == [t] + ts[..n];
      DepthCons(t, ts[..n]);
    }
    assert all[..0] == [] && ts[..0] == [];
    if Stays(all, level) {
      assert all[..1] == [t];
      forall n | 0 <= n <= |ts| ensures level + Depth([t]) + Depth(ts[..n]) >= 0 {
        assert level + Depth(all[..n + 1]) >= 0;
      }
    }
    if level + Depth([t]) >= 0 && Stays(ts, level + Depth([t])) {
      forall n | 0 <= n <= |all| ensures level + Depth(all[..n]) >= 0 {
        if n > 0 { assert level + Depth([t]) + Depth(ts[..n - 1]) >= 0; }
      }
    }
  }

  lemma DepthOne(t: Token)
    ensures Depth([t]) == match t case In => 1 case Out => -1 case _ => 0
  {
    assert [t][..0] == [];
  }

  /** Every `Show` finds an argument that suits it. */
  predicate Fed(ts: seq<Token>, args: seq<Arg>)
    decreases |ts|
  {
    ts == [] ||
    (if ts[0].Show? then args != [] && Suits(ts[0].letter, args[0]) && Fed(ts[1..], args[1..]) else Fed(ts[1..], args))
  }

  /**
   * A format panics exactly if it closes more levels than are open; otherwise it leaves the level changed
   * by its depth.
   */
  lemma {:induction false} PlayLevels(c: Config, st: State, ts: seq<Token>, fresh0: bool, args: seq<Arg>)
    requires Fed(ts, args)
    ensures var r := Play(c, st, ts, fresh0, args);
            if Stays(ts, st.level) then r.outcome.Done? && r.outcome.st.level == st.level + Depth(ts)
            else r.outcome.Panicked?
    decreases |ts|
  {
    if ts == [] {
      assert ts[..0] == [];
    } else {
      var t := ts[0];
      assert ts == [t] + ts[1..];
      DepthOne(t);
      StaysCons(t, ts[1..], st.level);
      DepthCons(t, ts[1..]);
      var r := PlayOne(c, st, t, fresh0, args);
      if r.outcome.Done? { PlayLevels(c, r.outcome.st, ts[1..], r.atStart, r.args); }
    }
  }

  /**
   * The same of printing: `%+` never panics, `%-` does so exactly at level zero, and matching ones restore
   * the level.
   */
  lemma LevelsExactlyWhen(c: Config, st: State, ts: seq<Token>, args: seq<Arg>)
    requires Proper(ts) && Fed(ts, args)
    ensures var r := Print(Written, c, st, SourceOf(ts), true, args);
            && (r.outcome.Done? <==> Stays(ts, st.level)) && (r.outcome.Panicked? <==> !Stays(ts, st.level))
            && (r.outcome.Done? ==> r.outcome.st.level == st.level + Depth(ts))
  {
    PrintIsPlay(c, st, ts, true, args);
    PlayLevels(c, st, ts, true, args);
  }

  lemma SourceCons(t: Token, ts: seq<Token>)
    ensures SourceOf([t] + ts) == Source(t) + SourceOf(ts)
  {
    assert ([t] + ts)[1..] == ts;
  }

  lemma DeeperSource(text: seq<Byte>)
    ensures SourceOf([In] + ([Break] + [Word(text)])) == [0x25, 0x2b, 0x0a] + text
  {
    SourceCons(In, [Break] + [Word(text)]);
    SourceCons(Break, [Word(text)]);
    assert [Word(text)] == [Word(text)] + [];
    SourceCons(Word(text), []);
  }

  lemma DeeperPlays(c: Config, st: State, text: seq<Byte>)
    requires st.padded && text != []
    ensures Play(c, st, [In] + ([Break] + [Word(text)]), true, []).outcome ==
            Done(State(st.out + [0x0a] + Repeat(c.pad, st.level + 1) + text, st.level + 1, true))
  {
    PlayCons(c, st, In, [Break] + [Word(text)], true, []);
    var a := State(st.out, st.level + 1, true);
    PlayCons(c, a, Break, [Word(text)], true, []);
    var b := State(st.out + [0x0a], st.level + 1, false);
    assert a.out + [] == a.out;
    assert OnLine(c, a, [0x0a]).(padded := false) == b;
    assert [Word(text)] == [Word(text)] + [];
    PlayCons(c, b, Word(text), [], true, []);
  }

  /** After `%+` and a line break, text is padded once more than before. */
  lemma NextLineIsDeeper(c: Config, st: State, text: seq<Byte>)
    requires st.padded && Plain(text) && text != []
    ensures Print(Written, c, st, [0x25, 0x2b, 0x0a] + text, true, []).outcome ==
            Done(State(st.out + [0x0a] + Repeat(c.pad, st.level + 1) + text, st.level + 1, true))
  {
    DeeperSource(text);
    DeeperPlays(c, st, text);
    PrintIsPlay(c, st, [In] + ([Break] + [Word(text)]), true, []);
  }

  // ---------------------------------------------------------------- objects

  /** The format and the arguments that do what an object's formatter does; a letter that stands for nothing fails. */
  function TokensOfOne(a: Action): seq<Token> {
    match a
    case Write(_) => [Show(0x73)]
    case Writeln(_) => [Show(0x73), Break]
    case PadInc => [In]
    case PadDec => [Out]
    case Refuse => [Show(0x3f)]
  }

  function ArgsOfOne(a: Action): seq<Arg> {
    match a
    case Write(s) => [Str(s)]
    case Writeln(s) => [Str(s)]
    case _ => []
  }

  function TokensOf(actions: seq<Action>): seq<Token> {
    if actions == [] then [] else TokensOfOne(actions[0]) + TokensOf(actions[1..])
  }

  function ArgsOf(actions: seq<Action>): seq<Arg> {
    if actions == [] then [] else ArgsOfOne(actions[0]) + ArgsOf(actions[1..])
  }

  /** The tokens of one action, in front of others, do what the action does. */
  lemma ActPlays(c: Config, st: State, a: Action, ts: seq<Token>, fresh0: bool, args: seq<Arg>)
    ensures var r := Play(c, st, TokensOfOne(a) + ts, fresh0, ArgsOfOne(a) + args);
            var o := Act(c, st, a);
            if o.Done? then r == Play(c, o.st, ts, true, args) else r.outcome == o
  {
    match a
    case Write(s) =>
      assert ([Str(s)] + args)[1..] == args;
      PlayCons(c, st, Show(0x73), ts, fresh0, [Str(s)] + args);
      EmitOnLine(c, st, s);
    case Writeln(s) => LinePlays(c, st, s, ts, fresh0, args);
    case PadInc =>
      assert [] + args == args;
      PlayCons(c, st, In, ts, fresh0, args);
    case PadDec =>
      assert [] + args == args;
      PlayCons(c, st, Out, ts, fresh0, args);
    case Refuse =>
      assert [] + args == args;
      PlayCons(c, st, Show(0x3f), ts, fresh0, args);
  }

  lemma LinePlays(c: Config, st: State, s: seq<Byte>, ts: seq<Token>, fresh0: bool, args: seq<Arg>)
    ensures Play(c, st, [Show(0x73), Break] + ts, fresh0, [Str(s)] + args) ==
            Play(c, Emit(c, st, s + [0x0a]).(padded := false), ts, true, args)
  {
    assert [Show(0x73), Break] + ts == [Show(0x73)] + ([Break] + ts);
    assert ([Str(s)] + args)[1..] == args;
    PlayCons(c, st, Show(0x73), [Break] + ts, fresh0, [Str(s)] + args);
    PlayCons(c, OnLine(c, st, s), Break, ts, true, args);
    EmitOnLine(c, st, s + [0x0a]);
    OnLineTwice(c, st, s, [0x0a]);
  }

  /** What an object does, its format does with its arguments. */
  lemma {:induction false} PerformPlays(c: Config, st: State, actions: seq<Action>, fresh0: bool)
    ensures Perform(c, st, actions) == Play(c, st, TokensOf(actions), fresh0, ArgsOf(actions)).outcome
    decreases |actions|
  {
    if actions != [] {
      ActPlays(c, st, actions[0], TokensOf(actions[1..]), fresh0, ArgsOf(actions[1..]));
      var o := Act(c, st, actions[0]);
      if o.Done? { PerformPlays(c, o.st, actions[1..], true); }
    }
  }

  lemma {:induction false} TokensProper(actions: seq<Action>)
    ensures Proper(TokensOf(actions))
  {
    if actions != [] { TokensProper(actions[1..]); }
  }

  /** `%v` with an object prints what the format that stands for its actions prints, and consumes the object. */
  lemma ObjectIsFormat(c: Config, st: State, actions: seq<Action>, args: seq<Arg>)
    ensures var r := Print(Written, c, st, [0x25, 0x76], true, [Obj(actions)] + args);
            && r.outcome == Print(Written, c, st, SourceOf(TokensOf(actions)), true, ArgsOf(actions)).outcome
            && r.args == args
  {
    var s: seq<Byte> := [0x25, 0x76];
    assert s == [0x25, 0x76] + [] && s[2..] == [];
    DirectiveHead(c, st, 0x76, [], true, [Obj(actions)] + args);
    assert ([Obj(actions)] + args)[1..] == args;
    TokensProper(actions);
    PrintIsPlay(c, st, TokensOf(actions), true, ArgsOf(actions));
    PerformPlays(c, st, actions, true);
  }

  // ---------------------------------------------------------------- signs in two bytes

  /** A percent sign in two bytes loses one of them: the other is printed as text before the directive. */
  lemma LongSignLeavesByte(c: Config, st: State, text: seq<Byte>)
    requires st.padded
    ensures Print(Written, c, st, [0xc0, 0xa5, 0x73], true, [Str(text)]).outcome ==
            Done(st.(out := st.out + [0xc0] + text))
  {
    var s: seq<Byte> := [0xc0, 0xa5, 0x73];
    assert NextRune(s) == Decoded(0x25, 2) && NextRune(s[2..]) == Decoded(0x73, 1);
    assert HeadOf(s) == Directed(3, 0x73) && s[3..] == [];
    assert Lead(s, NextRune(s)) == [0xc0];
    assert [Str(text)][1..] == [];
  }
}
