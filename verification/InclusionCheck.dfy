/** The parser for gcc's `-H` inclusion dumps. */
module InclusionCheck {
  import opened Prelude

  /** The build directory of the workspace and the normalisation of paths. */
  datatype Context = Context(buildDir: string, normpath: string -> string)

  predicate IsSpace(c: char) {
    c in " \t\n\r\U{000B}\U{000C}"
  }

  predicate StartsWith(s: string, prefix: string) {
    |prefix| <= |s| && s[..|prefix|] == prefix
  }

  predicate Absolute(hdr: string) { StartsWith(hdr, "/") }

  predicate Generated(ctx: Context, hdr: string) { StartsWith(hdr, ctx.buildDir) }

  /** How a header is reported: normalised, without the build directory. */
  function Shown(ctx: Context, hdr: string): string {
    var path := ctx.normpath(hdr);
    var prefix := ctx.buildDir + "/";
    if StartsWith(path, prefix) then path[|prefix|..] else path
  }

  // ---------------------------------------------------------------- lines

  function RStrip(s: string): string {
    if s != [] && IsSpace(s[|s| - 1]) then RStrip(s[..|s| - 1]) else s
  }

  /** The index of the first blank, or None. */
  function FindBlank(s: string): Option<nat> {
    if s == [] then None
    else if s[0] == ' ' then Some(0)
    else match FindBlank(s[1..]) case None => None case Some(i) => Some(i + 1)
  }

  lemma {:induction false} FindBlankInside(s: string)
    ensures FindBlank(s).Some? ==> FindBlank(s).value < |s|
    ensures FindBlank(s).Some? && s[0] != ' ' ==> FindBlank(s).value > 0
  {
    if s == [] {
    } else {
      FindBlankInside(s[1..]);
    }
  }

  /** The level and the header named by a line; None for a line without a blank. */
  function ParseHdrLevelLine(line: string): Option<(nat, string)> {
    match FindBlank(line)
    case None => None
    case Some(pos) =>
      FindBlankInside(line);
      var hdr := line[pos + 1..];
      Some((pos, if StartsWith(hdr, "./") then hdr[2..] else hdr))
  }

  // ---------------------------------------------------------------- the machine, line by line

  datatype State = State(
    currentLevel: nat, skipLevel: int, hdrsStack: seq<string>,
    directHdrs: seq<string>, stacks: seq<seq<string>>)

  /** Crashed stands for the failing assertion and for a pop from an empty stack. */
  datatype Outcome = Going(s: State) | Stopped(s: State) | Crashed

  const START := State(0, -1, [], [], [])

  function ProcessedHdr(ctx: Context, s: State, level: nat, hdr: string): State {
    if Absolute(hdr) then s.(skipLevel := level)
    else if Generated(ctx, hdr) then
      s.(skipLevel := level, stacks := s.stacks + [s.hdrsStack + [Shown(ctx, hdr)]])
    else
      s.(currentLevel := level, hdrsStack := s.hdrsStack + [Shown(ctx, hdr)], skipLevel := -1)
  }

  function Header(ctx: Context, s: State, level: nat, hdr: string): Outcome
    requires level > 0
  {
    var t := if level == 1 && !Absolute(hdr) then s.(directHdrs := s.directHdrs + [Shown(ctx, hdr)]) else s;
    if level > t.currentLevel then
      if t.skipLevel != -1 && level > t.skipLevel then Going(t)
      else if level != t.currentLevel + 1 then Crashed
      else Going(ProcessedHdr(ctx, t, level, hdr))
    else
      var pops := t.currentLevel - level + 1;
      if |t.hdrsStack| < pops then Crashed
      else
        var popped := t.(currentLevel := level - 1, hdrsStack := t.hdrsStack[..|t.hdrsStack| - pops]);
        Going(ProcessedHdr(ctx, popped, level, hdr))
  }

  function Step(ctx: Context, s: State, line: string): Outcome {
    var stripped := RStrip(line);
    if !StartsWith(stripped, ".") then Stopped(s)
    else
      FindBlankInside(stripped);
      match ParseHdrLevelLine(stripped)
      case None => Stopped(s)
      case Some((level, hdr)) => Header(ctx, s, level, hdr)
  }

  function Run(ctx: Context, s: State, lines: seq<string>): Outcome
    decreases |lines|
  {
    if lines == [] then Going(s)
    else match Step(ctx, s, lines[0])
      case Going(t) => Run(ctx, t, lines[1..])
      case stop => stop
  }

  datatype Verdict = Next | Break | Crash

  /** One parse in progress. The two lists are shared by the line loop and `ProcessHdr`. */
  class StackParser {
    const ctx: Context
    var currentLevel: nat
    var skipLevel: int
    var hdrsStack: seq<string>
    var directHdrs: seq<string>
    var stacks: seq<seq<string>>

    constructor (ctx: Context)
      ensures this.ctx == ctx && Now() == START
    {
      this.ctx := ctx;
      currentLevel, skipLevel := 0, -1;
      hdrsStack, directHdrs, stacks := [], [], [];
    }

    ghost function Now(): State
      reads this
    {
      State(currentLevel, skipLevel, hdrsStack, directHdrs, stacks)
    }

    method ProcessHdr(level: nat, hdr: string)
      modifies this
      ensures Now() == ProcessedHdr(ctx, old(Now()), level, hdr)
    {
      if Absolute(hdr) {
        skipLevel := level;
      } else if Generated(ctx, hdr) {
        skipLevel := level;
        stacks := stacks + [hdrsStack + [Shown(ctx, hdr)]];
      } else {
        currentLevel := level;
        hdrsStack := hdrsStack + [Shown(ctx, hdr)];
        skipLevel := -1;
      }
    }

    method PopTo(level: nat) returns (ok: bool)
      requires 0 < level <= currentLevel
      modifies this`currentLevel, this`hdrsStack
      ensures ok <==> |old(hdrsStack)| >= old(currentLevel) - level + 1
      ensures ok ==> currentLevel == level - 1
      ensures ok ==> hdrsStack == old(hdrsStack)[..|old(hdrsStack)| - (old(currentLevel) - level + 1)]
    {
      while currentLevel >= level
        invariant level - 1 <= currentLevel <= old(currentLevel)
        invariant old(currentLevel) - currentLevel <= |old(hdrsStack)|
        invariant hdrsStack == old(hdrsStack)[..|old(hdrsStack)| - (old(currentLevel) - currentLevel)]
      {
        currentLevel := currentLevel - 1;
        if hdrsStack == [] {
          return false;
        }
        hdrsStack := hdrsStack[..|hdrsStack| - 1];
      }
      ok := true;
    }

    method ReadLine(line: string) returns (v: Verdict)
      modifies this
      ensures match Step(ctx, old(Now()), line)
        case Going(s) => v == Next && Now() == s
        case Stopped(s) => v == Break && Now() == s
        case Crashed => v == Crash
    {
      var stripped := RStrip(line);
      if !StartsWith(stripped, ".") {
        return Break;
      }
      FindBlankInside(stripped);
      var parsed := ParseHdrLevelLine(stripped);
      if parsed.None? {
        return Break;
      }
      var (level, hdr) := parsed.value;
      var ok := TakeHeader(level, hdr);
      v := if ok then Next else Crash;
    }

    method TakeHeader(level: nat, hdr: string) returns (ok: bool)
      requires level > 0
      modifies this
      ensures ok <==> Header(ctx, old(Now()), level, hdr).Going?
      ensures ok ==> Now() == Header(ctx, old(Now()), level, hdr).s
    {
      if level == 1 && !Absolute(hdr) {
        directHdrs := directHdrs + [Shown(ctx, hdr)];
      }
      if level > currentLevel {
        if skipLevel != -1 && level > skipLevel {
          return true;
        }
        if level != currentLevel + 1 {
          return false;
        }
      } else {
        ok := PopTo(level);
        if !ok {
          return false;
        }
      }
      ProcessHdr(level, hdr);
      ok := true;
    }
  }

  /** The parse of a whole dump; None when it crashes. */
  method ParseInclusionStacks(ctx: Context, lines: seq<string>) returns (r: Option<(seq<string>, seq<seq<string>>)>)
    ensures match Run(ctx, START, lines)
      case Crashed => r == None
      case Going(s) => r == Some((s.directHdrs, s.stacks))
      case Stopped(s) => r == Some((s.directHdrs, s.stacks))
  {
    var parser := new StackParser(ctx);
    assert lines[0..] == lines;
    for i := 0 to |lines|
      invariant parser.ctx == ctx && fresh(parser)
      invariant Run(ctx, START, lines) == Run(ctx, parser.Now(), lines[i..])
    {
      assert lines[i..][1..] == lines[i + 1..];
      var v := parser.ReadLine(lines[i]);
      if v == Crash {
        return None;
      }
      if v == Break {
        break;
      }
    }
    r := Some((parser.directHdrs, parser.stacks));
  }

  // ---------------------------------------------------------------- include forests

  /** The headers a translation unit includes: the first one with the headers it includes in
      turn, and the remaining ones. */
  datatype Forest = Nil | Include(hdr: string, children: Forest, rest: Forest)

  /** A header name that survives `rstrip`. */
  predicate Printable(hdr: string) {
    hdr != "" && !IsSpace(hdr[|hdr| - 1])
  }

  predicate AllPrintable(f: Forest) {
    f.Include? ==> Printable(f.hdr) && AllPrintable(f.children) && AllPrintable(f.rest)
  }

  function Dots(n: nat): string {
    seq(n, i => '.')
  }

  function Line(level: nat, hdr: string): string {
    Dots(level) + " " + hdr + "\n"
  }

  /** gcc's listing, every header preceded by as many dots as it is deep. */
  function Print(f: Forest, level: nat): seq<string> {
    match f
    case Nil => []
    case Include(hdr, children, rest) => [Line(level, hdr)] + Print(children, level + 1) + Print(rest, level)
  }

  /** A name as the parser takes it up, without a leading "./". */
  function Plain(hdr: string): string {
    if StartsWith(hdr, "./") then hdr[2..] else hdr
  }

  function DirectHdrs(ctx: Context, f: Forest): seq<string> {
    match f
    case Nil => []
    case Include(hdr, _, rest) =>
      (if Absolute(Plain(hdr)) then [] else [Shown(ctx, Plain(hdr))]) + DirectHdrs(ctx, rest)
  }

  /** In preorder, the way from a root down to each generated header with no absolute and no
      generated header above it, below the headers in `prefix`. */
  function Stacks(ctx: Context, f: Forest, prefix: seq<string>): seq<seq<string>> {
    match f
    case Nil => []
    case Include(h, children, rest) =>
      var hdr := Plain(h);
      var here :=
        if Absolute(hdr) then []
        else if Generated(ctx, hdr) then [prefix + [Shown(ctx, hdr)]]
        else Stacks(ctx, children, prefix + [Shown(ctx, hdr)]);
      here + Stacks(ctx, rest, prefix)
  }

  // ---------------------------------------------------------------- one printed line read back

  lemma {:induction false} FindBlankAfterDots(level: nat, tail: string)
    ensures FindBlank(Dots(level) + " " + tail) == Some(level)
  {
    if level > 0 {
      FindBlankAfterDots(level - 1, tail);
      assert (Dots(level) + " " + tail)[1..] == Dots(level - 1) + " " + tail;
    } else {
      assert Dots(0) + " " + tail == " " + tail;
    }
  }

  lemma StripLine(level: nat, hdr: string)
    requires Printable(hdr)
    ensures RStrip(Line(level, hdr)) == Dots(level) + " " + hdr
  {
    var line := Line(level, hdr);
    assert line[..|line| - 1] == Dots(level) + " " + hdr;
  }

  lemma StepOnPrinted(ctx: Context, s: State, level: nat, hdr: string)
    requires level > 0 && Printable(hdr)
    ensures Step(ctx, s, Line(level, hdr)) == Header(ctx, s, level, Plain(hdr))
  {
    StripLine(level, hdr);
    FindBlankAfterDots(level, hdr);
    var stripped := Dots(level) + " " + hdr;
    assert stripped[level + 1..] == hdr;
    assert StartsWith(stripped, ".");
  }

  lemma {:induction false} RunConcat(ctx: Context, s: State, a: seq<string>, b: seq<string>)
    ensures Run(ctx, s, a + b) ==
      match Run(ctx, s, a) case Going(t) => Run(ctx, t, b) case stop => stop
    decreases |a|
  {
    if a == [] {
      assert a + b == b;
    } else {
      assert (a + b)[1..] == a[1..] + b;
      var o := Step(ctx, s, a[0]);
      if o.Going? { RunConcat(ctx, o.s, a[1..], b); }
    }
  }

  // ---------------------------------------------------------------- the parser inverts the printer

  /** Between two headers of the level below `prefix`. */
  predicate Ready(s: State, prefix: seq<string>) {
    && |s.hdrsStack| == s.currentLevel >= |prefix|
    && s.hdrsStack[..|prefix|] == prefix
    && (s.skipLevel == -1 || s.skipLevel == s.currentLevel + 1)
  }

  /** A printed forest is read header, children, rest. */
  lemma RunPrinted(ctx: Context, s: State, f: Forest, level: nat, t: State, u: State)
    requires f.Include? && Printable(f.hdr) && level > 0
    requires Header(ctx, s, level, Plain(f.hdr)) == Going(t)
    requires Run(ctx, t, Print(f.children, level + 1)) == Going(u)
    ensures Run(ctx, s, Print(f, level)) == Run(ctx, u, Print(f.rest, level))
  {
    var below, after := Print(f.children, level + 1), Print(f.rest, level);
    StepOnPrinted(ctx, s, level, f.hdr);
    RunFirst(ctx, s, Line(level, f.hdr), below + after, t);
    RunConcat(ctx, t, below, after);
    ConcatAssociative([Line(level, f.hdr)], below, after);
  }

  lemma RunFirst(ctx: Context, s: State, line: string, lines: seq<string>, t: State)
    requires Step(ctx, s, line) == Going(t)
    ensures Run(ctx, s, [line] + lines) == Run(ctx, t, lines)
  {
    assert ([line] + lines)[1..] == lines;
  }

  lemma HeaderSkipped(ctx: Context, s: State, level: nat, hdr: string)
    requires s.skipLevel == s.currentLevel + 1 && level > s.skipLevel
    ensures Header(ctx, s, level, hdr) == Going(s)
  {
  }

  lemma {:induction false} PrintedLine(f: Forest, level: nat, line: string) returns (l: nat, hdr: string)
    requires AllPrintable(f) && line in Print(f, level)
    ensures l >= level && Printable(hdr) && line == Line(l, hdr)
    decreases f
  {
    if line in Print(f.children, level + 1) {
      l, hdr := PrintedLine(f.children, level + 1, line);
    } else if line in Print(f.rest, level) {
      l, hdr := PrintedLine(f.rest, level, line);
    } else {
      l, hdr := level, f.hdr;
    }
  }

  lemma {:induction false} RunStays(ctx: Context, s: State, lines: seq<string>)
    requires forall line :: line in lines ==> Step(ctx, s, line) == Going(s)
    ensures Run(ctx, s, lines) == Going(s)
    decreases |lines|
  {
    if lines == [] {
    } else {
      assert lines[0] in lines;
      RunStays(ctx, s, lines[1..]);
    }
  }

  /** Everything below a header that is not followed leaves no trace. */
  lemma SkippedForest(ctx: Context, f: Forest, level: nat, s: State)
    requires AllPrintable(f) && s.skipLevel == s.currentLevel + 1 && level > s.skipLevel
    ensures Run(ctx, s, Print(f, level)) == Going(s)
  {
    forall line | line in Print(f, level) ensures Step(ctx, s, line) == Going(s) {
      var l, hdr := PrintedLine(f, level, line);
      StepOnPrinted(ctx, s, l, hdr);
      HeaderSkipped(ctx, s, l, Plain(hdr));
    }
    RunStays(ctx, s, Print(f, level));
  }

  /** A header one level below `prefix` is taken up without a crash. */
  lemma HeaderWhenReady(ctx: Context, s: State, prefix: seq<string>, hdr: string)
    requires Ready(s, prefix)
    ensures var o := Header(ctx, s, |prefix| + 1, hdr);
      && o.Going?
      && o.s.directHdrs == s.directHdrs + (if prefix == [] && !Absolute(hdr) then [Shown(ctx, hdr)] else [])
      && o.s.stacks == s.stacks
           + (if !Absolute(hdr) && Generated(ctx, hdr) then [prefix + [Shown(ctx, hdr)]] else [])
      && (if Absolute(hdr) || Generated(ctx, hdr)
          then Ready(o.s, prefix) && o.s.skipLevel == o.s.currentLevel + 1 == |prefix| + 1
          else Ready(o.s, prefix + [Shown(ctx, hdr)]))
  {
    var kept := s.hdrsStack[..|prefix|];
    if s.currentLevel == |prefix| {
      assert s.hdrsStack == kept;
    } else {
      assert |s.hdrsStack| - (s.currentLevel - (|prefix| + 1) + 1) == |prefix|;
    }
  }

  /** The state after a forest printed one level below `prefix`. */
  ghost predicate Consumed(ctx: Context, f: Forest, prefix: seq<string>, s: State, o: Outcome) {
    && o.Going? && Ready(o.s, prefix)
    && o.s.stacks == s.stacks + Stacks(ctx, f, prefix)
    && o.s.directHdrs == s.directHdrs + if prefix == [] then DirectHdrs(ctx, f) else []
  }

  /** A header that is followed: its children, then the rest of its level. */
  lemma ConsumedFollowed(ctx: Context, f: Forest, prefix: seq<string>, s: State, s1: State, below: Outcome,
                         after: Outcome)
    requires f.Include? && !Absolute(Plain(f.hdr)) && !Generated(ctx, Plain(f.hdr))
    requires s1.stacks == s.stacks
    requires s1.directHdrs == s.directHdrs + if prefix == [] then [Shown(ctx, Plain(f.hdr))] else []
    requires Consumed(ctx, f.children, prefix + [Shown(ctx, Plain(f.hdr))], s1, below)
    requires Ready(below.s, prefix) ==> Consumed(ctx, f.rest, prefix, below.s, after)
    ensures Ready(below.s, prefix) && Consumed(ctx, f, prefix, s, after)
  {
    var deeper := prefix + [Shown(ctx, Plain(f.hdr))];
    assert below.s.hdrsStack[..|prefix|] == below.s.hdrsStack[..|deeper|][..|prefix|];
    ConcatAssociative(s.stacks, Stacks(ctx, f.children, deeper), Stacks(ctx, f.rest, prefix));
    assert below.s.directHdrs == s1.directHdrs;
    if prefix == [] {
      ConcatAssociative(s.directHdrs, [Shown(ctx, Plain(f.hdr))], DirectHdrs(ctx, f.rest));
    }
  }

  /** A header that is not followed: only the rest of its level. */
  lemma ConsumedSkipped(ctx: Context, f: Forest, prefix: seq<string>, s: State, s1: State, after: Outcome,
                        direct: seq<string>, here: seq<seq<string>>)
    requires f.Include? && (Absolute(Plain(f.hdr)) || Generated(ctx, Plain(f.hdr)))
    requires direct == if prefix == [] && !Absolute(Plain(f.hdr)) then [Shown(ctx, Plain(f.hdr))] else []
    requires here == if !Absolute(Plain(f.hdr)) then [prefix + [Shown(ctx, Plain(f.hdr))]] else []
    requires s1.directHdrs == s.directHdrs + direct && s1.stacks == s.stacks + here
    requires Consumed(ctx, f.rest, prefix, s1, after)
    ensures Consumed(ctx, f, prefix, s, after)
  {
    ConcatAssociative(s.stacks, here, Stacks(ctx, f.rest, prefix));
    ConcatAssociative(s.directHdrs, direct, if prefix == [] then DirectHdrs(ctx, f.rest) else []);
  }

  lemma {:induction false} ConsumesForest(ctx: Context, f: Forest, prefix: seq<string>, s: State, o: Outcome)
    requires AllPrintable(f) && Ready(s, prefix) && o == Run(ctx, s, Print(f, |prefix| + 1))
    ensures Consumed(ctx, f, prefix, s, o)
    decreases f
  {
    if f.Nil? {
    } else {
      var level, hdr := |prefix| + 1, Plain(f.hdr);
      HeaderWhenReady(ctx, s, prefix, hdr);
      var s1 := Header(ctx, s, level, hdr).s;
      var below := Run(ctx, s1, Print(f.children, level + 1));
      if Absolute(hdr) || Generated(ctx, hdr) {
        SkippedForest(ctx, f.children, level + 1, s1);
        RunPrinted(ctx, s, f, level, s1, s1);
        ConsumesForest(ctx, f.rest, prefix, s1, o);
        ConsumedSkipped(ctx, f, prefix, s, s1, o,
          if prefix == [] && !Absolute(hdr) then [Shown(ctx, hdr)] else [],
          if !Absolute(hdr) then [prefix + [Shown(ctx, hdr)]] else []);
      } else {
        ConsumesForest(ctx, f.children, prefix + [Shown(ctx, hdr)], s1, below);
        RunPrinted(ctx, s, f, level, s1, below.s);
        if Ready(below.s, prefix) { ConsumesForest(ctx, f.rest, prefix, below.s, o); }
        ConsumedFollowed(ctx, f, prefix, s, s1, below, o);
      }
    }
  }

  /** For every include forest, followed by the lines that gcc prints after it, the parser
      neither crashes nor stops early, and returns the direct headers and the stacks. */
  lemma ParsesEveryForest(ctx: Context, f: Forest, trailer: seq<string>)
    requires AllPrintable(f) && (trailer == [] || !StartsWith(RStrip(trailer[0]), "."))
    ensures var o := Run(ctx, START, Print(f, 1) + trailer);
      && !o.Crashed?
      && o.s.directHdrs == DirectHdrs(ctx, f)
      && o.s.stacks == Stacks(ctx, f, [])
  {
    var o := Run(ctx, START, Print(f, 1));
    ConsumesForest(ctx, f, [], START, o);
    ConsumedFromStart(ctx, f, o);
    RunWithTrailer(ctx, Print(f, 1), trailer, o.s);
  }

  lemma ConsumedFromStart(ctx: Context, f: Forest, o: Outcome)
    requires Consumed(ctx, f, [], START, o)
    ensures o.s.stacks == Stacks(ctx, f, []) && o.s.directHdrs == DirectHdrs(ctx, f)
  {
    EmptyConcat(Stacks(ctx, f, []));
    EmptyConcat(DirectHdrs(ctx, f));
  }

  lemma RunWithTrailer(ctx: Context, lines: seq<string>, trailer: seq<string>, s: State)
    requires Run(ctx, START, lines) == Going(s) && (trailer == [] || !StartsWith(RStrip(trailer[0]), "."))
    ensures var o := Run(ctx, START, lines + trailer);
      !o.Crashed? && o.s == s
  {
    RunConcat(ctx, START, lines, trailer);
    TrailerStops(ctx, s, trailer);
  }

  lemma TrailerStops(ctx: Context, s: State, trailer: seq<string>)
    requires trailer == [] || !StartsWith(RStrip(trailer[0]), ".")
    ensures Run(ctx, s, trailer) == if trailer == [] then Going(s) else Stopped(s)
  {
  }

  /** On any text whatever no pop fails: a run crashes exactly where the assertion fails. */
  lemma {:induction false} CrashesWhereAssertionFails(ctx: Context, s: State, lines: seq<string>)
    requires Ready(s, [])
    ensures var o := Run(ctx, s, lines);
      && (!o.Crashed? ==> Ready(o.s, []))
      && (o.Crashed? <==> exists i :: 0 <= i < |lines| && FailsAt(ctx, s, lines, i))
    decreases |lines|
  {
    if lines == [] {
    } else {
      var o := Step(ctx, s, lines[0]);
      assert lines[..0] == [] && Run(ctx, s, lines[..0]) == Going(s);
      if o.Going? {
        CrashesWhereAssertionFails(ctx, o.s, lines[1..]);
        forall i | 0 <= i < |lines| - 1
          ensures FailsAt(ctx, o.s, lines[1..], i) <==> FailsAt(ctx, s, lines, i + 1)
        {
          FailsLater(ctx, s, lines, i);
        }
        if i :| 0 <= i < |lines| && FailsAt(ctx, s, lines, i) {
          assert FailsAt(ctx, o.s, lines[1..], i - 1);
        }
        if i :| 0 <= i < |lines| - 1 && FailsAt(ctx, o.s, lines[1..], i) {
          assert FailsAt(ctx, s, lines, i + 1);
        }
      } else {
        forall i | 0 < i < |lines| ensures !FailsAt(ctx, s, lines, i) {
          assert lines[..i][0] == lines[0];
        }
        assert o.Crashed? <==> FailsAt(ctx, s, lines, 0);
      }
    }
  }

  lemma FailsLater(ctx: Context, s: State, lines: seq<string>, i: nat)
    requires i + 1 < |lines| && Step(ctx, s, lines[0]).Going?
    ensures FailsAt(ctx, Step(ctx, s, lines[0]).s, lines[1..], i) <==> FailsAt(ctx, s, lines, i + 1)
  {
    assert lines[..i + 1][1..] == lines[1..][..i];
  }

  /** Line i is reached and fails the assertion on its level. */
  ghost predicate FailsAt(ctx: Context, s: State, lines: seq<string>, i: nat) {
    i < |lines| &&
    var before := Run(ctx, s, lines[..i]);
    before.Going? && TooDeep(before.s, lines[i])
  }

  /** A header line that is more than one level deeper than what is followed, with nothing being
      skipped. */
  predicate TooDeep(s: State, line: string) {
    IsHdrLine(line) && s.skipLevel == -1 && LevelOf(line) > s.currentLevel + 1
  }

  // ---------------------------------------------------------------- crashes, told from the lines alone

  predicate IsHdrLine(line: string) {
    StartsWith(RStrip(line), ".") && ParseHdrLevelLine(RStrip(line)).Some?
  }

  function LevelOf(line: string): nat {
    match ParseHdrLevelLine(RStrip(line)) case Some((level, _)) => level case None => 0
  }

  /** The header on a line is not followed: it is absolute or generated. */
  predicate Unfollowed(ctx: Context, line: string) {
    match ParseHdrLevelLine(RStrip(line))
    case Some((_, hdr)) => Absolute(hdr) || Generated(ctx, hdr)
    case None => false
  }

  function LevelsOf(lines: seq<string>): seq<nat> {
    seq(|lines|, i requires 0 <= i < |lines| => LevelOf(lines[i]))
  }

  function UnfollowedOf(ctx: Context, lines: seq<string>): seq<bool> {
    seq(|lines|, i requires 0 <= i < |lines| => Unfollowed(ctx, lines[i]))
  }

  /** All lines after k up to i are deeper than line k. */
  predicate Beneath(levels: seq<nat>, k: int, i: int) {
    0 <= k && i < |levels| && forall m :: k < m <= i ==> levels[m] > levels[k]
  }

  /** Line i lists a header that is not followed, or lies beneath one. */
  predicate Skipped(levels: seq<nat>, off: seq<bool>, i: int) {
    i < |levels| == |off| && exists k :: 0 <= k <= i && off[k] && Beneath(levels, k, i)
  }

  /** Line i is more than one level deeper than the line before, which is followed. */
  predicate Jump(levels: seq<nat>, off: seq<bool>, i: nat) {
    i < |levels| == |off| && levels[i] > (if i == 0 then 0 else levels[i - 1]) + 1 && !Skipped(levels, off, i - 1)
  }

  predicate JumpsAt(ctx: Context, lines: seq<string>, i: nat) {
    && i < |lines| && (forall k :: 0 <= k <= i ==> IsHdrLine(lines[k]))
    && Jump(LevelsOf(lines), UnfollowedOf(ctx, lines), i)
  }

  /** What one header line does to the two levels. */
  lemma StepLevels(ctx: Context, s: State, line: string)
    requires Ready(s, []) && IsHdrLine(line)
    ensures var o, level := Step(ctx, s, line), LevelOf(line);
      if s.skipLevel != -1 && level > s.skipLevel then
        o.Going? && o.s.currentLevel == s.currentLevel && o.s.skipLevel == s.skipLevel
      else if level > s.currentLevel + 1 then o.Crashed?
      else (o.Going?
            && (Unfollowed(ctx, line) ==> o.s.skipLevel == level)
            && (!Unfollowed(ctx, line) ==> o.s.skipLevel == -1 && o.s.currentLevel == level))
  {
    FindBlankInside(RStrip(line));
  }

  /** How the two levels of the machine after i lines show in the levels of the lines. */
  predicate Levels(levels: seq<nat>, off: seq<bool>, i: nat, current: nat, skip: int) {
    && i <= |levels| == |off|
    && (skip == -1 ==> current == if i == 0 then 0 else levels[i - 1])
    && (skip != -1 ==> SkipsFrom(levels, off, i, skip))
    && (forall k :: 0 <= k < i && off[k] && Beneath(levels, k, i - 1) ==> skip != -1 && skip <= levels[k])
  }

  predicate SkipsFrom(levels: seq<nat>, off: seq<bool>, i: nat, level: int) {
    i <= |levels| == |off| && exists k :: 0 <= k < i && off[k] && Beneath(levels, k, i - 1) && levels[k] == level
  }

  lemma BeneathOneMore(levels: seq<nat>, k: nat, i: nat)
    requires k < i < |levels|
    ensures Beneath(levels, k, i) <==> Beneath(levels, k, i - 1) && levels[i] > levels[k]
  {
  }

  /** A line beneath an unfollowed header. */
  lemma LevelsWhenSkipping(levels: seq<nat>, off: seq<bool>, i: nat, current: nat, skip: int)
    requires i < |levels| == |off| && Levels(levels, off, i, current, skip)
    requires skip != -1 && levels[i] > skip
    ensures Levels(levels, off, i + 1, current, skip)
  {
    var k :| 0 <= k < i && off[k] && Beneath(levels, k, i - 1) && levels[k] == skip;
    BeneathOneMore(levels, k, i);
    forall k | 0 <= k < i && off[k] && Beneath(levels, k, i) ensures skip <= levels[k] {
      BeneathOneMore(levels, k, i);
    }
  }

  lemma NotBeneath(levels: seq<nat>, off: seq<bool>, k: nat, i: nat, current: nat, skip: int)
    requires k < i < |levels| == |off| && Levels(levels, off, i, current, skip) && off[k]
    requires skip == -1 || levels[i] <= skip
    ensures !Beneath(levels, k, i)
  {
    BeneathOneMore(levels, k, i);
  }

  /** Any other line that does not jump. */
  lemma LevelsWhenTaken(levels: seq<nat>, off: seq<bool>, i: nat, current: nat, skip: int, current': nat, skip': int)
    requires i < |levels| == |off| && Levels(levels, off, i, current, skip)
    requires skip == -1 || levels[i] <= skip
    requires if off[i] then skip' == levels[i] else skip' == -1 && current' == levels[i]
    ensures Levels(levels, off, i + 1, current', skip')
  {
    forall k | 0 <= k < i && off[k] ensures !Beneath(levels, k, i) {
      NotBeneath(levels, off, k, i, current, skip);
    }
    LevelsAfterTaken(levels, off, i, current', skip');
  }

  lemma LevelsAfterTaken(levels: seq<nat>, off: seq<bool>, i: nat, current: nat, skip: int)
    requires i < |levels| == |off| && forall k :: 0 <= k < i && off[k] ==> !Beneath(levels, k, i)
    requires if off[i] then skip == levels[i] else skip == -1 && current == levels[i]
    ensures Levels(levels, off, i + 1, current, skip)
  {
    assert Beneath(levels, i, i);
  }

  predicate Tracks(ctx: Context, lines: seq<string>, i: nat, s: State) {
    && i <= |lines| && (forall k :: 0 <= k < i ==> IsHdrLine(lines[k]))
    && Ready(s, []) && Levels(LevelsOf(lines), UnfollowedOf(ctx, lines), i, s.currentLevel, s.skipLevel)
  }

  lemma StepTracks(ctx: Context, lines: seq<string>, i: nat, s: State)
    requires i < |lines| && Tracks(ctx, lines, i, s) && Step(ctx, s, lines[i]).Going?
    ensures Tracks(ctx, lines, i + 1, Step(ctx, s, lines[i]).s)
  {
    StepLevels(ctx, s, lines[i]);
    StepStaysReady(ctx, s, lines[i]);
    TracksNext(ctx, lines, i, s, Step(ctx, s, lines[i]).s);
  }

  lemma TracksNext(ctx: Context, lines: seq<string>, i: nat, s: State, t: State)
    requires i < |lines| && Tracks(ctx, lines, i, s) && IsHdrLine(lines[i]) && Ready(t, [])
    requires if s.skipLevel != -1 && LevelOf(lines[i]) > s.skipLevel
             then t.currentLevel == s.currentLevel && t.skipLevel == s.skipLevel
             else if Unfollowed(ctx, lines[i]) then t.skipLevel == LevelOf(lines[i])
             else t.skipLevel == -1 && t.currentLevel == LevelOf(lines[i])
    ensures Tracks(ctx, lines, i + 1, t)
  {
    var levels, off := LevelsOf(lines), UnfollowedOf(ctx, lines);
    if s.skipLevel != -1 && levels[i] > s.skipLevel {
      LevelsWhenSkipping(levels, off, i, s.currentLevel, s.skipLevel);
    } else {
      LevelsWhenTaken(levels, off, i, s.currentLevel, s.skipLevel, t.currentLevel, t.skipLevel);
    }
  }

  lemma StepStaysReady(ctx: Context, s: State, line: string)
    requires Ready(s, []) && Step(ctx, s, line).Going?
    ensures IsHdrLine(line) && Ready(Step(ctx, s, line).s, [])
  {
    CrashesWhereAssertionFails(ctx, s, [line]);
    RunOne(ctx, s, line);
  }

  lemma RunOne(ctx: Context, s: State, line: string)
    ensures Run(ctx, s, [line]) == Step(ctx, s, line)
  {
    assert [line][1..] == [];
    var o := Step(ctx, s, line);
    if o.Going? { assert Run(ctx, o.s, []) == o; }
  }

  lemma RunOneMore(ctx: Context, lines: seq<string>, i: nat)
    requires i < |lines|
    ensures var o := Run(ctx, START, lines[..i]);
      Run(ctx, START, lines[..i + 1]) == if o.Going? then Step(ctx, o.s, lines[i]) else o
  {
    assert lines[..i + 1] == lines[..i] + [lines[i]];
    RunConcat(ctx, START, lines[..i], [lines[i]]);
    var o := Run(ctx, START, lines[..i]);
    if o.Going? { RunOne(ctx, o.s, lines[i]); }
  }

  lemma {:induction false} RunTracks(ctx: Context, lines: seq<string>, i: nat)
    requires i <= |lines| && Run(ctx, START, lines[..i]).Going?
    ensures Tracks(ctx, lines, i, Run(ctx, START, lines[..i]).s)
    decreases i
  {
    if i == 0 {
    } else {
      RunOneMore(ctx, lines, i - 1);
      RunTracks(ctx, lines, i - 1);
      StepTracks(ctx, lines, i - 1, Run(ctx, START, lines[..i - 1]).s);
    }
  }

  lemma {:induction false} RunGoesOn(ctx: Context, lines: seq<string>, i: nat)
    requires i <= |lines| && forall k :: 0 <= k < i ==> IsHdrLine(lines[k])
    ensures !Run(ctx, START, lines[..i]).Stopped?
    decreases i
  {
    if i == 0 {
    } else {
      RunOneMore(ctx, lines, i - 1);
      RunGoesOn(ctx, lines, i - 1);
    }
  }

  /** On any text whatever no pop fails, and the assertion fails exactly where a header, after
      header lines only, is more than one level deeper than the line before, and that line is
      followed and lies beneath followed headers only. */
  lemma CrashesExactlyOnJump(ctx: Context, lines: seq<string>)
    ensures Run(ctx, START, lines).Crashed? <==> exists i :: 0 <= i < |lines| && JumpsAt(ctx, lines, i)
  {
    CrashesWhereAssertionFails(ctx, START, lines);
    if i :| 0 <= i < |lines| && FailsAt(ctx, START, lines, i) { FailureIsJump(ctx, lines, i); }
    if i :| 0 <= i < |lines| && JumpsAt(ctx, lines, i) { JumpCrashes(ctx, lines, i); }
  }

  lemma FailureIsJump(ctx: Context, lines: seq<string>, i: nat)
    requires i < |lines| && FailsAt(ctx, START, lines, i)
    ensures JumpsAt(ctx, lines, i)
  {
    RunTracks(ctx, lines, i);
    TooDeepIsJump(ctx, lines, i, Run(ctx, START, lines[..i]).s);
  }

  lemma TooDeepIsJump(ctx: Context, lines: seq<string>, i: nat, s: State)
    requires i < |lines| && Tracks(ctx, lines, i, s) && TooDeep(s, lines[i])
    ensures JumpsAt(ctx, lines, i)
  {
    LevelsJump(LevelsOf(lines), UnfollowedOf(ctx, lines), i, s.currentLevel);
  }

  lemma LevelsJump(levels: seq<nat>, off: seq<bool>, i: nat, current: nat)
    requires i < |levels| == |off| && Levels(levels, off, i, current, -1) && levels[i] > current + 1
    ensures Jump(levels, off, i)
  {
  }

  lemma JumpCrashes(ctx: Context, lines: seq<string>, i: nat)
    requires i < |lines| && JumpsAt(ctx, lines, i)
    ensures Run(ctx, START, lines).Crashed?
  {
    RunGoesOn(ctx, lines, i);
    var o := Run(ctx, START, lines[..i]);
    if o.Going? {
      RunTracks(ctx, lines, i);
      JumpStops(ctx, lines, i, o.s);
    }
    CrashFollows(ctx, lines, i, o);
    CrashStays(ctx, lines, i + 1);
  }

  lemma CrashFollows(ctx: Context, lines: seq<string>, i: nat, o: Outcome)
    requires i < |lines| && o == Run(ctx, START, lines[..i]) && !o.Stopped?
    requires o.Going? ==> Step(ctx, o.s, lines[i]).Crashed?
    ensures Run(ctx, START, lines[..i + 1]).Crashed?
  {
    RunOneMore(ctx, lines, i);
  }

  lemma CrashStays(ctx: Context, lines: seq<string>, i: nat)
    requires i <= |lines| && Run(ctx, START, lines[..i]).Crashed?
    ensures Run(ctx, START, lines).Crashed?
  {
    assert lines == lines[..i] + lines[i..];
    RunConcat(ctx, START, lines[..i], lines[i..]);
  }

  lemma JumpStops(ctx: Context, lines: seq<string>, i: nat, s: State)
    requires i < |lines| && JumpsAt(ctx, lines, i) && Tracks(ctx, lines, i, s)
    ensures Step(ctx, s, lines[i]).Crashed?
  {
    FollowedSoFar(ctx, lines, i, s);
    StepLevels(ctx, s, lines[i]);
  }

  /** Nothing is being skipped exactly when the line before is followed. */
  lemma FollowedSoFar(ctx: Context, lines: seq<string>, i: nat, s: State)
    requires i <= |lines| && Tracks(ctx, lines, i, s)
    ensures s.skipLevel == -1 <==> !Skipped(LevelsOf(lines), UnfollowedOf(ctx, lines), i - 1)
  {
  }

  /** A dump that begins two levels deep crashes the parser. */
  lemma FirstLineMayJump(ctx: Context)
    ensures Run(ctx, START, [".. a.h"]).Crashed?
  {
    var line := ".. a.h";
    assert RStrip(line) == line && line[..1] == ".";
    FindBlankAfterDots(2, "a.h");
    assert Dots(2) + " " + "a.h" == line;
    assert line[3..] == "a.h" && Plain("a.h") == "a.h" by { assert "a.h"[..2][0] == 'a'; }
    RunOne(ctx, START, line);
  }

  // ---------------------------------------------------------------- generated headers

  predicate InBuildDir(ctx: Context, hdr: string) { StartsWith(hdr, ctx.buildDir + "/") }

  /** What counts as generated is in the build directory, or only named like it. */
  lemma GeneratedIff(ctx: Context, hdr: string)
    ensures Generated(ctx, hdr) <==>
      InBuildDir(ctx, hdr) || (StartsWith(hdr, ctx.buildDir) && (|hdr| == |ctx.buildDir| || hdr[|ctx.buildDir|] != '/'))
  {
    if StartsWith(hdr, ctx.buildDir) && |hdr| > |ctx.buildDir| && hdr[|ctx.buildDir|] == '/' {
      assert hdr[..|ctx.buildDir| + 1] == ctx.buildDir + "/";
    }
    if InBuildDir(ctx, hdr) {
      assert hdr[..|ctx.buildDir|] == hdr[..|ctx.buildDir| + 1][..|ctx.buildDir|];
    }
  }

  predicate Namesake(ctx: Context, hdr: string) { Generated(ctx, hdr) && !InBuildDir(ctx, hdr) }

  /** The stacks as they are meant: tracking stops at headers in the build directory only. */
  function MeantStacks(ctx: Context, f: Forest, prefix: seq<string>): seq<seq<string>> {
    match f
    case Nil => []
    case Include(h, children, rest) =>
      var hdr := Plain(h);
      var here :=
        if Absolute(hdr) then []
        else if InBuildDir(ctx, hdr) then [prefix + [Shown(ctx, hdr)]]
        else MeantStacks(ctx, children, prefix + [Shown(ctx, hdr)]);
      here + MeantStacks(ctx, rest, prefix)
  }

  /** Following headers down from the roots leads to a header that is only named like the
      build directory. */
  predicate ReachesNamesake(ctx: Context, f: Forest) {
    f.Include? &&
    var hdr := Plain(f.hdr);
    || (!Absolute(hdr) && (Namesake(ctx, hdr) || (!Generated(ctx, hdr) && ReachesNamesake(ctx, f.children))))
    || ReachesNamesake(ctx, f.rest)
  }

  /** As long as no namesake is reached the stacks are the ones that are meant. */
  lemma {:induction false} StacksAreMeant(ctx: Context, f: Forest, prefix: seq<string>)
    requires !ReachesNamesake(ctx, f)
    ensures Stacks(ctx, f, prefix) == MeantStacks(ctx, f, prefix)
    decreases f
  {
    if f.Nil? {
    } else {
      var hdr := Plain(f.hdr);
      GeneratedIff(ctx, hdr);
      StacksAreMeant(ctx, f.rest, prefix);
      if !Absolute(hdr) && !Generated(ctx, hdr) {
        StacksAreMeant(ctx, f.children, prefix + [Shown(ctx, hdr)]);
      }
    }
  }

  /** p is tracked and ends outside the build directory. */
  ghost predicate EndsOutside(ctx: Context, f: Forest, p: seq<string>) {
    RootPath(f, p) && Tracked(ctx, p) && !InBuildDir(ctx, Plain(p[|p| - 1]))
  }

  lemma {:induction false} NamesakeIsEnd(ctx: Context, f: Forest) returns (p: seq<string>)
    requires ReachesNamesake(ctx, f)
    ensures EndsOutside(ctx, f, p)
    decreases f
  {
    var hdr := Plain(f.hdr);
    if ReachesNamesake(ctx, f.rest) {
      p := NamesakeIsEnd(ctx, f.rest);
    } else if Namesake(ctx, hdr) {
      p := [f.hdr];
      TrackedRoot(ctx, f);
    } else {
      var q := NamesakeIsEnd(ctx, f.children);
      FollowedRootPath(ctx, f, q);
      p := [f.hdr] + q;
    }
  }

  lemma {:induction false} EndIsNamesake(ctx: Context, f: Forest, p: seq<string>)
    requires EndsOutside(ctx, f, p)
    ensures ReachesNamesake(ctx, f)
    decreases f
  {
    if RootPath(f.rest, p) {
      EndIsNamesake(ctx, f.rest, p);
    } else if |p| > 1 {
      var q := p[1..];
      assert forall i :: 0 <= i < |q| ==> q[i] == p[i + 1];
      EndIsNamesake(ctx, f.children, q);
    }
  }

  /** Some stack stands for a path that ends outside the build directory exactly when following
      headers leads to a namesake of it. */
  lemma StackEndsOutsideIff(ctx: Context, f: Forest)
    ensures (exists p :: EndsOutside(ctx, f, p)) <==> ReachesNamesake(ctx, f)
  {
    if ReachesNamesake(ctx, f) {
      var p := NamesakeIsEnd(ctx, f);
    }
    if p :| EndsOutside(ctx, f, p) { EndIsNamesake(ctx, f, p); }
  }

  /** A plain header with such a name ends the tracking: the generated one that it includes is
      missing from the stacks. */
  lemma NamesakeEndsTracking()
    ensures var ctx := Context("build", p => p);
      var f := Include("builder.h", Include("build/a.pb.h", Nil, Nil), Nil);
      && !InBuildDir(ctx, "builder.h") && InBuildDir(ctx, "build/a.pb.h")
      && RootPath(f, ["builder.h", "build/a.pb.h"])
      && Stacks(ctx, f, []) == [["builder.h"]]
  {
    var ctx := Context("build", p => p);
    var f := Include("builder.h", Include("build/a.pb.h", Nil, Nil), Nil);
    assert "builder.h"[..5] == "build" && "build/a.pb.h"[..5] == "build";
    assert "builder.h"[5] == 'e' && "build/a.pb.h"[5] == '/';
    assert "build" + "/" == "build/" && "build/a.pb.h"[..6] == "build/";
    assert "builder.h"[..1][0] == "builder.h"[..2][0] == 'b';
    assert Plain("builder.h") == "builder.h" && !Absolute("builder.h");
    assert Shown(ctx, "builder.h") == "builder.h";
    assert ["builder.h", "build/a.pb.h"][1..] == ["build/a.pb.h"];
    assert [] + ["builder.h"] == ["builder.h"];
  }

  // ---------------------------------------------------------------- what the stacks are

  /** p leads from a root of f down, each header including the next. */
  ghost predicate RootPath(f: Forest, p: seq<string>)
    decreases f
  {
    f.Include? && p != [] &&
    ((p[0] == f.hdr && (|p| == 1 || RootPath(f.children, p[1..]))) || RootPath(f.rest, p))
  }

  /** Tracking stops at the last header of p and not before. */
  ghost predicate Tracked(ctx: Context, p: seq<string>) {
    && p != []
    && (forall i :: 0 <= i < |p| ==> !Absolute(Plain(p[i])))
    && (forall i :: 0 <= i < |p| ==> (Generated(ctx, Plain(p[i])) <==> i == |p| - 1))
  }

  function AllShown(ctx: Context, p: seq<string>): seq<string> {
    seq(|p|, i requires 0 <= i < |p| => Shown(ctx, Plain(p[i])))
  }

  lemma {:induction false} StackIsRootPath(ctx: Context, f: Forest, prefix: seq<string>, stack: seq<string>)
    returns (p: seq<string>)
    requires stack in Stacks(ctx, f, prefix)
    ensures RootPath(f, p) && Tracked(ctx, p) && stack == prefix + AllShown(ctx, p)
    decreases f
  {
    if stack in Stacks(ctx, f.rest, prefix) {
      p := StackIsRootPath(ctx, f.rest, prefix, stack);
    } else if Generated(ctx, Plain(f.hdr)) {
      StackFromHere(ctx, f, prefix, stack);
      p := [f.hdr];
      TrackedRoot(ctx, f);
    } else {
      StackFromHere(ctx, f, prefix, stack);
      var deeper := prefix + [Shown(ctx, Plain(f.hdr))];
      var q := StackIsRootPath(ctx, f.children, deeper, stack);
      p := [f.hdr] + q;
      FollowedRootPath(ctx, f, q);
      ConcatAssociative(prefix, [Shown(ctx, Plain(f.hdr))], AllShown(ctx, q));
    }
  }

  lemma TrackedRoot(ctx: Context, f: Forest)
    requires f.Include? && !Absolute(Plain(f.hdr)) && Generated(ctx, Plain(f.hdr))
    ensures RootPath(f, [f.hdr]) && Tracked(ctx, [f.hdr]) && AllShown(ctx, [f.hdr]) == [Shown(ctx, Plain(f.hdr))]
  {
  }

  /** A stack that does not come from the headers further right. */
  lemma StackFromHere(ctx: Context, f: Forest, prefix: seq<string>, stack: seq<string>)
    requires f.Include? && stack in Stacks(ctx, f, prefix) && stack !in Stacks(ctx, f.rest, prefix)
    ensures !Absolute(Plain(f.hdr))
    ensures var deeper := prefix + [Shown(ctx, Plain(f.hdr))];
      if Generated(ctx, Plain(f.hdr)) then stack == deeper else stack in Stacks(ctx, f.children, deeper)
  {
  }

  lemma FollowedRootPath(ctx: Context, f: Forest, q: seq<string>)
    requires f.Include? && !Absolute(Plain(f.hdr)) && !Generated(ctx, Plain(f.hdr))
    requires RootPath(f.children, q) && Tracked(ctx, q)
    ensures RootPath(f, [f.hdr] + q) && Tracked(ctx, [f.hdr] + q)
    ensures AllShown(ctx, [f.hdr] + q) == [Shown(ctx, Plain(f.hdr))] + AllShown(ctx, q)
  {
    assert ([f.hdr] + q)[1..] == q;
    TrackedBelow(ctx, f.hdr, q);
    AllShownBelow(ctx, f.hdr, q);
  }

  lemma {:induction false} RootPathIsStack(ctx: Context, f: Forest, prefix: seq<string>, p: seq<string>)
    requires RootPath(f, p) && Tracked(ctx, p)
    ensures prefix + AllShown(ctx, p) in Stacks(ctx, f, prefix)
    decreases f
  {
    if RootPath(f.rest, p) {
      RootPathIsStack(ctx, f.rest, prefix, p);
    } else {
      var shown := Shown(ctx, Plain(p[0]));
      if |p| == 1 {
        assert AllShown(ctx, p) == [shown];
      } else {
        var q := p[1..];
        assert forall i :: 0 <= i < |q| ==> q[i] == p[i + 1];
        assert AllShown(ctx, p) == [shown] + AllShown(ctx, q);
        RootPathIsStack(ctx, f.children, prefix + [shown], q);
        assert prefix + [shown] + AllShown(ctx, q) == prefix + AllShown(ctx, p);
      }
    }
  }

  /** The stacks are exactly the tracked root paths. */
  lemma StacksAreTheTrackedRootPaths(ctx: Context, f: Forest, stack: seq<string>)
    ensures stack in Stacks(ctx, f, []) <==>
      exists p :: RootPath(f, p) && Tracked(ctx, p) && stack == AllShown(ctx, p)
  {
    if stack in Stacks(ctx, f, []) {
      var p := StackIsRootPath(ctx, f, [], stack);
      assert [] + AllShown(ctx, p) == AllShown(ctx, p);
    }
    if p :| RootPath(f, p) && Tracked(ctx, p) && stack == AllShown(ctx, p) {
      RootPathIsStack(ctx, f, [], p);
      assert [] + AllShown(ctx, p) == AllShown(ctx, p);
    }
  }

  // ---------------------------------------------------------------- the order of the stacks

  /** The headers on the way down to a position in the forest; None if there is no such position. */
  ghost function Along(f: Forest, p: seq<nat>): Option<seq<string>>
    decreases f
  {
    if f.Nil? || p == [] then None
    else if p[0] > 0 then Along(f.rest, [p[0] - 1] + p[1..])
    else if |p| == 1 then Some([f.hdr])
    else
      match Along(f.children, p[1..])
      case None => None
      case Some(below) => Some([f.hdr] + below)
  }

  /** The position leads to a header at which tracking stops. */
  ghost predicate TrackedAt(ctx: Context, f: Forest, p: seq<nat>) {
    Along(f, p).Some? && Tracked(ctx, Along(f, p).value)
  }

  /** The positions are those at which tracking stops, from left to right. */
  ghost predicate Positions(ctx: Context, f: Forest, ps: seq<seq<nat>>) {
    && (forall i, j :: 0 <= i < j < |ps| ==> Precedes(ps[i], ps[j]))
    && (forall p :: p in ps <==> TrackedAt(ctx, f, p))
  }

  /** Stack i is what is shown of the headers down to position i. */
  ghost predicate ShownAt(ctx: Context, f: Forest, prefix: seq<string>, ps: seq<seq<nat>>, stacks: seq<seq<string>>) {
    && |stacks| == |ps|
    && forall i :: 0 <= i < |ps| ==>
         Along(f, ps[i]).Some? && stacks[i] == prefix + AllShown(ctx, Along(f, ps[i]).value)
  }

  function Inside(ps: seq<seq<nat>>): seq<seq<nat>> {
    seq(|ps|, i requires 0 <= i < |ps| => [0] + ps[i])
  }

  function OneFurther(p: seq<nat>): seq<nat> {
    if p == [] then [] else [p[0] + 1] + p[1..]
  }

  function Further(ps: seq<seq<nat>>): seq<seq<nat>> {
    seq(|ps|, i requires 0 <= i < |ps| => OneFurther(ps[i]))
  }

  lemma AlongInside(f: Forest, p: seq<nat>)
    requires f.Include? && p != []
    ensures Along(f, [0] + p) ==
      if Along(f.children, p).Some? then Some([f.hdr] + Along(f.children, p).value) else None
  {
    assert ([0] + p)[1..] == p;
  }

  lemma AlongFurther(f: Forest, p: seq<nat>)
    requires f.Include? && p != []
    ensures Along(f, OneFurther(p)) == Along(f.rest, p)
  {
    var q := OneFurther(p);
    assert q[1..] == p[1..] && [q[0] - 1] + q[1..] == p;
  }

  lemma FurtherPrecedes(p: seq<nat>, q: seq<nat>)
    requires Precedes(p, q) && p != []
    ensures Precedes(OneFurther(p), OneFurther(q))
  {
    assert OneFurther(p)[1..] == p[1..] && OneFurther(q)[1..] == q[1..];
  }

  lemma InsidePrecedes(p: seq<nat>, q: seq<nat>)
    requires Precedes(p, q)
    ensures Precedes([0] + p, [0] + q)
  {
    assert ([0] + p)[1..] == p && ([0] + q)[1..] == q;
  }

  /** The positions at and below the first header. */
  lemma {:induction false} PositionsHere(ctx: Context, f: Forest, prefix: seq<string>) returns (ps: seq<seq<nat>>)
    requires f.Include?
    ensures forall i, j :: 0 <= i < j < |ps| ==> Precedes(ps[i], ps[j])
    ensures forall p :: p in ps <==> p != [] && p[0] == 0 && TrackedAt(ctx, f, p)
    ensures ShownAt(ctx, f, prefix, ps, StacksHere(ctx, f, prefix))
    decreases f, 0
  {
    var hdr := Plain(f.hdr);
    if Absolute(hdr) {
      ps := [];
      forall p | p != [] && p[0] == 0 ensures !TrackedAt(ctx, f, p) {
        if TrackedAt(ctx, f, p) { FirstAlong(f, p); }
      }
    } else if Generated(ctx, hdr) {
      ps := [[0]];
      forall p ensures p in ps <==> p != [] && p[0] == 0 && TrackedAt(ctx, f, p) {
        if p != [] && p[0] == 0 { TrackedAtGenerated(ctx, f, p); }
      }
      TrackedRoot(ctx, f);
    } else {
      var qs := StackPositions(ctx, f.children, prefix + [Shown(ctx, hdr)]);
      ps := Inside(qs);
      InsideIsBelow(ctx, f, qs);
      ShownInside(ctx, f, prefix, qs);
    }
  }

  /** What `Stacks` lists for the first header. */
  function StacksHere(ctx: Context, f: Forest, prefix: seq<string>): seq<seq<string>> {
    if f.Nil? then []
    else
      var hdr := Plain(f.hdr);
      if Absolute(hdr) then []
      else if Generated(ctx, hdr) then [prefix + [Shown(ctx, hdr)]]
      else Stacks(ctx, f.children, prefix + [Shown(ctx, hdr)])
  }

  lemma FirstAlong(f: Forest, p: seq<nat>)
    requires f.Include? && p != [] && p[0] == 0 && Along(f, p).Some?
    ensures Along(f, p).value != [] && Along(f, p).value[0] == f.hdr
    ensures |p| == 1 ==> Along(f, p).value == [f.hdr]
    ensures |p| > 1 ==>
      Along(f.children, p[1..]).Some? && Along(f, p).value == [f.hdr] + Along(f.children, p[1..]).value
  {
  }

  lemma {:induction false} AlongIsNotEmpty(f: Forest, p: seq<nat>)
    requires Along(f, p).Some?
    ensures Along(f, p).value != []
    decreases f
  {
    if p[0] > 0 {
      AlongIsNotEmpty(f.rest, [p[0] - 1] + p[1..]);
    } else {
      FirstAlong(f, p);
    }
  }

  lemma TrackedAtGenerated(ctx: Context, f: Forest, p: seq<nat>)
    requires f.Include? && !Absolute(Plain(f.hdr)) && Generated(ctx, Plain(f.hdr)) && p != [] && p[0] == 0
    ensures TrackedAt(ctx, f, p) <==> p == [0]
  {
    if TrackedAt(ctx, f, p) {
      FirstAlong(f, p);
      if |p| > 1 { AlongIsNotEmpty(f.children, p[1..]); }
    } else if p == [0] {
      TrackedRoot(ctx, f);
    }
  }

  lemma TrackedAtFollowed(ctx: Context, f: Forest, p: seq<nat>)
    requires f.Include? && !Absolute(Plain(f.hdr)) && !Generated(ctx, Plain(f.hdr)) && p != [] && p[0] == 0
    ensures TrackedAt(ctx, f, p) <==> TrackedAt(ctx, f.children, p[1..])
  {
    if Along(f, p).Some? {
      FirstAlong(f, p);
      if |p| > 1 {
        var below := Along(f.children, p[1..]).value;
        AlongIsNotEmpty(f.children, p[1..]);
        TrackedBelow(ctx, f.hdr, below);
      }
    }
  }

  lemma TrackedBelow(ctx: Context, hdr: string, below: seq<string>)
    requires !Absolute(Plain(hdr)) && !Generated(ctx, Plain(hdr)) && below != []
    ensures Tracked(ctx, [hdr] + below) <==> Tracked(ctx, below)
  {
    var p := [hdr] + below;
    if Tracked(ctx, p) {
      forall i | 0 <= i < |below|
        ensures !Absolute(Plain(below[i])) && (Generated(ctx, Plain(below[i])) <==> i == |below| - 1)
      {
        assert p[i + 1] == below[i];
      }
    }
  }

  lemma InsideIsBelow(ctx: Context, f: Forest, qs: seq<seq<nat>>)
    requires f.Include? && !Absolute(Plain(f.hdr)) && !Generated(ctx, Plain(f.hdr)) && Positions(ctx, f.children, qs)
    ensures var ps := Inside(qs);
      && (forall i, j :: 0 <= i < j < |ps| ==> Precedes(ps[i], ps[j]))
      && (forall p :: p in ps <==> p != [] && p[0] == 0 && TrackedAt(ctx, f, p))
  {
    var ps := Inside(qs);
    forall i, j | 0 <= i < j < |ps| ensures Precedes(ps[i], ps[j]) { InsidePrecedes(qs[i], qs[j]); }
    forall p ensures p in ps <==> p != [] && p[0] == 0 && TrackedAt(ctx, f, p) {
      if p != [] && p[0] == 0 {
        TrackedAtFollowed(ctx, f, p);
        assert p == [0] + p[1..];
        if p[1..] in qs {
          var i :| 0 <= i < |qs| && qs[i] == p[1..];
          assert ps[i] == p;
        }
        if p in ps {
          var i :| 0 <= i < |ps| && ps[i] == p;
          assert p[1..] == qs[i];
        }
      }
    }
  }

  lemma ShownInside(ctx: Context, f: Forest, prefix: seq<string>, qs: seq<seq<nat>>)
    requires f.Include?
    requires ShownAt(ctx, f.children, prefix + [Shown(ctx, Plain(f.hdr))], qs,
                     Stacks(ctx, f.children, prefix + [Shown(ctx, Plain(f.hdr))]))
    ensures ShownAt(ctx, f, prefix, Inside(qs), Stacks(ctx, f.children, prefix + [Shown(ctx, Plain(f.hdr))]))
  {
    var shown := Shown(ctx, Plain(f.hdr));
    var stacks := Stacks(ctx, f.children, prefix + [shown]);
    forall i | 0 <= i < |qs|
      ensures Along(f, [0] + qs[i]).Some? && stacks[i] == prefix + AllShown(ctx, Along(f, [0] + qs[i]).value)
    {
      var below := Along(f.children, qs[i]).value;
      AlongInside(f, qs[i]);
      AllShownBelow(ctx, f.hdr, below);
      ConcatAssociative(prefix, [shown], AllShown(ctx, below));
    }
  }

  lemma AllShownBelow(ctx: Context, hdr: string, below: seq<string>)
    ensures AllShown(ctx, [hdr] + below) == [Shown(ctx, Plain(hdr))] + AllShown(ctx, below)
  {
  }

  /** The stacks in order: one for each position at which tracking stops, from left to right, and
      each shows the headers on the way down. */
  lemma {:induction false} StackPositions(ctx: Context, f: Forest, prefix: seq<string>) returns (ps: seq<seq<nat>>)
    ensures Positions(ctx, f, ps) && ShownAt(ctx, f, prefix, ps, Stacks(ctx, f, prefix))
    decreases f, 1
  {
    if f.Nil? {
      ps := [];
    } else {
      var here := PositionsHere(ctx, f, prefix);
      var more := StackPositions(ctx, f.rest, prefix);
      ps := here + Further(more);
      PositionsJoin(ctx, f, here, more);
      ShownJoin(ctx, f, prefix, here, more);
    }
  }

  lemma PositionsJoin(ctx: Context, f: Forest, here: seq<seq<nat>>, more: seq<seq<nat>>)
    requires f.Include? && Positions(ctx, f.rest, more)
    requires forall i, j :: 0 <= i < j < |here| ==> Precedes(here[i], here[j])
    requires forall p :: p in here <==> p != [] && p[0] == 0 && TrackedAt(ctx, f, p)
    ensures Positions(ctx, f, here + Further(more))
  {
    var ps := here + Further(more);
    forall i | 0 <= i < |more| ensures more[i] != [] && Further(more)[i][0] > 0 { assert more[i] in more; }
    forall i, j | 0 <= i < j < |ps| ensures Precedes(ps[i], ps[j]) {
      if i < |here| <= j {
        assert here[i] in here;
      } else if |here| <= i {
        FurtherPrecedes(more[i - |here|], more[j - |here|]);
      }
    }
    forall p ensures p in Further(more) <==> p != [] && p[0] > 0 && TrackedAt(ctx, f, p) {
      InFurther(ctx, f, more, p);
    }
    forall p ensures p in ps <==> TrackedAt(ctx, f, p) {
      assert p in ps <==> p in here || p in Further(more);
    }
  }

  lemma InFurther(ctx: Context, f: Forest, more: seq<seq<nat>>, p: seq<nat>)
    requires f.Include? && forall q :: q in more <==> TrackedAt(ctx, f.rest, q)
    ensures p in Further(more) <==> p != [] && p[0] > 0 && TrackedAt(ctx, f, p)
  {
    if p in Further(more) {
      var i :| 0 <= i < |more| && OneFurther(more[i]) == p;
      assert more[i] in more;
      AlongFurther(f, more[i]);
    }
    if p != [] && p[0] > 0 && TrackedAt(ctx, f, p) {
      var q := [p[0] - 1] + p[1..];
      assert q[1..] == p[1..] && OneFurther(q) == p;
      AlongFurther(f, q);
      assert q in more;
      var i :| 0 <= i < |more| && more[i] == q;
      assert Further(more)[i] == p;
    }
  }

  lemma ShownJoin(ctx: Context, f: Forest, prefix: seq<string>, here: seq<seq<nat>>, more: seq<seq<nat>>)
    requires f.Include? && ShownAt(ctx, f, prefix, here, StacksHere(ctx, f, prefix))
    requires ShownAt(ctx, f.rest, prefix, more, Stacks(ctx, f.rest, prefix))
    ensures ShownAt(ctx, f, prefix, here + Further(more), Stacks(ctx, f, prefix))
  {
    assert Stacks(ctx, f, prefix) == StacksHere(ctx, f, prefix) + Stacks(ctx, f.rest, prefix);
    ShownFurther(ctx, f, prefix, more, Stacks(ctx, f.rest, prefix));
    ShownBoth(ctx, f, prefix, here, StacksHere(ctx, f, prefix), Further(more), Stacks(ctx, f.rest, prefix));
  }

  lemma ShownFurther(ctx: Context, f: Forest, prefix: seq<string>, more: seq<seq<nat>>, stacks: seq<seq<string>>)
    requires f.Include? && ShownAt(ctx, f.rest, prefix, more, stacks)
    ensures ShownAt(ctx, f, prefix, Further(more), stacks)
  {
    forall i | 0 <= i < |more| ensures Along(f, Further(more)[i]) == Along(f.rest, more[i]) {
      AlongFurther(f, more[i]);
    }
  }

  lemma ShownBoth(ctx: Context, f: Forest, prefix: seq<string>, ps: seq<seq<nat>>, stacks: seq<seq<string>>,
                  ps': seq<seq<nat>>, stacks': seq<seq<string>>)
    requires ShownAt(ctx, f, prefix, ps, stacks) && ShownAt(ctx, f, prefix, ps', stacks')
    ensures ShownAt(ctx, f, prefix, ps + ps', stacks + stacks')
  {
  }

  /** The header that is number n among the roots. */
  ghost function RootAt(f: Forest, n: nat): Option<string> {
    match f
    case Nil => None
    case Include(hdr, _, rest) => if n == 0 then Some(hdr) else RootAt(rest, n - 1)
  }

  /** The numbers are those of the roots that are not absolute, from left to right. */
  ghost predicate Roots(f: Forest, roots: seq<nat>) {
    && (forall i, j :: 0 <= i < j < |roots| ==> roots[i] < roots[j])
    && (forall n: nat :: n in roots <==> RootAt(f, n).Some? && !Absolute(Plain(RootAt(f, n).value)))
  }

  ghost predicate RootsShown(ctx: Context, f: Forest, roots: seq<nat>, hdrs: seq<string>) {
    && |hdrs| == |roots|
    && forall i :: 0 <= i < |roots| ==>
         RootAt(f, roots[i]).Some? && hdrs[i] == Shown(ctx, Plain(RootAt(f, roots[i]).value))
  }

  /** The direct headers are what is shown of the roots that are not absolute, from left to right. */
  lemma {:induction false} DirectHdrsAreRoots(ctx: Context, f: Forest) returns (roots: seq<nat>)
    ensures Roots(f, roots) && RootsShown(ctx, f, roots, DirectHdrs(ctx, f))
    decreases f
  {
    if f.Nil? {
      roots := [];
    } else {
      var more := DirectHdrsAreRoots(ctx, f.rest);
      var here: seq<nat> := if Absolute(Plain(f.hdr)) then [] else [0];
      roots := here + Increased(more);
      RootsJoin(f, here, more);
      RootsShownJoin(ctx, f, here, more);
    }
  }

  lemma RootsShownJoin(ctx: Context, f: Forest, here: seq<nat>, more: seq<nat>)
    requires f.Include? && here == if Absolute(Plain(f.hdr)) then [] else [0]
    requires RootsShown(ctx, f.rest, more, DirectHdrs(ctx, f.rest))
    ensures RootsShown(ctx, f, here + Increased(more), DirectHdrs(ctx, f))
  {
    forall i | 0 <= i < |more| ensures RootAt(f, Increased(more)[i]) == RootAt(f.rest, more[i]) {}
  }

  lemma RootsJoin(f: Forest, here: seq<nat>, more: seq<nat>)
    requires f.Include? && here == (if Absolute(Plain(f.hdr)) then [] else [0]) && Roots(f.rest, more)
    ensures Roots(f, here + Increased(more))
  {
    var roots := here + Increased(more);
    forall n: nat ensures n in roots <==> RootAt(f, n).Some? && !Absolute(Plain(RootAt(f, n).value)) {
      InIncreased(more, n);
      assert n in roots <==> n in here || n in Increased(more);
      if n > 0 { assert RootAt(f, n) == RootAt(f.rest, n - 1); }
    }
  }

  function Increased(s: seq<nat>): seq<nat> {
    seq(|s|, i requires 0 <= i < |s| => s[i] + 1)
  }

  lemma InIncreased(s: seq<nat>, n: nat)
    ensures n in Increased(s) <==> n > 0 && n - 1 in s
  {
    if n in Increased(s) {
      var i :| 0 <= i < |s| && Increased(s)[i] == n;
      assert s[i] == n - 1;
    }
    if n > 0 && n - 1 in s {
      var i :| 0 <= i < |s| && s[i] == n - 1;
      assert Increased(s)[i] == n;
    }
  }

  // ---------------------------------------------------------------- names, read character by character

  lemma StartsWithIff(s: string, prefix: string)
    ensures StartsWith(s, prefix) <==> exists rest: string :: s == prefix + rest
  {
    if StartsWith(s, prefix) { assert s == prefix + s[|prefix|..]; }
  }

  lemma AbsoluteIff(hdr: string)
    ensures Absolute(hdr) <==> hdr != "" && hdr[0] == '/'
  {
    if hdr != "" { assert hdr[..1] == [hdr[0]]; }
  }

  /** A leading dot directory is taken off, once. */
  lemma PlainOf(hdr: string)
    ensures Plain("./" + hdr) == hdr
    ensures !(|hdr| >= 2 && hdr[0] == '.' && hdr[1] == '/') ==> Plain(hdr) == hdr
  {
    assert ("./" + hdr)[..2] == "./" && ("./" + hdr)[2..] == hdr;
    if StartsWith(hdr, "./") { assert hdr[..2][0] == '.' && hdr[..2][1] == '/'; }
  }

  /** A header is shown in its normal form, without the build directory if it is in there. */
  lemma ShownOf(ctx: Context, hdr: string, rest: string)
    ensures ctx.normpath(hdr) == ctx.buildDir + "/" + rest ==> Shown(ctx, hdr) == rest
    ensures (forall tail: string :: ctx.normpath(hdr) != ctx.buildDir + "/" + tail) ==>
      Shown(ctx, hdr) == ctx.normpath(hdr)
  {
    var path, prefix := ctx.normpath(hdr), ctx.buildDir + "/";
    if path == prefix + rest { assert path[..|prefix|] == prefix && path[|prefix|..] == rest; }
    StartsWithIff(path, prefix);
  }

  /** `rstrip` takes off all trailing white space and nothing else. */
  lemma {:induction false} RStripOf(s: string)
    ensures RStrip(s) <= s && forall i :: |RStrip(s)| <= i < |s| ==> s[i] in " \t\n\r\U{000B}\U{000C}"
    ensures RStrip(s) == "" || RStrip(s)[|RStrip(s)| - 1] !in " \t\n\r\U{000B}\U{000C}"
    decreases |s|
  {
    if s == "" {
    } else {
      RStripOf(s[..|s| - 1]);
    }
  }

  lemma {:induction false} FindBlankOf(s: string)
    ensures match FindBlank(s)
      case None => ' ' !in s
      case Some(i) => i < |s| && s[i] == ' ' && ' ' !in s[..i]
  {
    if s == "" {
    } else {
      FindBlankOf(s[1..]);
      assert forall i :: 0 < i <= |s| ==> s[..i] == [s[0]] + s[1..][..i - 1];
    }
  }

  // ---------------------------------------------------------------- the dump in the documentation

  /** A header outside the build directory, as it is written in the dump. */
  ghost predicate SourceHdr(ctx: Context, hdr: string) {
    && Printable(hdr) && hdr[0] != '/' && !(|hdr| >= 2 && hdr[0] == '.' && hdr[1] == '/')
    && (forall tail: string :: hdr != ctx.buildDir + tail) && ctx.normpath(hdr) == hdr
  }

  /** A header in the build directory. */
  predicate BuildHdr(ctx: Context, hdr: string) {
    Printable(hdr) && ctx.normpath(ctx.buildDir + "/" + hdr) == ctx.buildDir + "/" + hdr
  }

  predicate PlainBuildDir(ctx: Context) {
    var dir := ctx.buildDir;
    dir != "" && dir[0] != '/' && dir[0] != '.'
  }

  lemma SourceHdrOf(ctx: Context, hdr: string)
    requires SourceHdr(ctx, hdr)
    ensures Plain("./" + hdr) == hdr && !Absolute(hdr) && !Generated(ctx, hdr) && Shown(ctx, hdr) == hdr
    ensures Printable("./" + hdr)
  {
    PlainOf(hdr);
    AbsoluteIff(hdr);
    StartsWithIff(hdr, ctx.buildDir);
    forall tail: string ensures hdr != ctx.buildDir + "/" + tail {
      ConcatAssociative(ctx.buildDir, "/", tail);
      assert hdr != ctx.buildDir + ("/" + tail);
    }
    ShownOf(ctx, hdr, "");
  }

  lemma BuildHdrOf(ctx: Context, hdr: string)
    requires PlainBuildDir(ctx) && BuildHdr(ctx, hdr)
    ensures var full := ctx.buildDir + "/" + hdr;
      Plain(full) == full && !Absolute(full) && Generated(ctx, full) && Shown(ctx, full) == hdr && Printable(full)
  {
    var full := ctx.buildDir + "/" + hdr;
    assert full[0] == ctx.buildDir[0];
    PlainOf(full);
    AbsoluteIff(full);
    ConcatAssociative(ctx.buildDir, "/", hdr);
    StartsWithIff(full, ctx.buildDir);
    ShownOf(ctx, full, hdr);
  }

  /** The names in the dump that the documentation gives, freely chosen. */
  datatype Dump = Dump(dir: string, foo: string, fooPb: string, servicePb: string, barPb: string, client: string,
                       optionsPb: string)
  {
    function Service(): Forest { Include(dir + servicePb, Nil, Nil) }
    function Options(): Forest { Include(dir + optionsPb, Nil, Nil) }
    function Last(): Forest { Include("./" + client, Options(), Nil) }
    function Middle(): Forest { Include(dir + barPb, Nil, Last()) }
    function Below(): Forest { Include(dir + fooPb, Service(), Nil) }
    function All(): Forest { Include("./" + foo, Below(), Middle()) }

    function Text(): seq<string> {
      [ ". " + ("./" + foo) + "\n",
        ".. " + (dir + fooPb) + "\n",
        "... " + (dir + servicePb) + "\n",
        ". " + (dir + barPb) + "\n",
        ". " + ("./" + client) + "\n",
        ".. " + (dir + optionsPb) + "\n" ]
    }

    ghost predicate Valid(ctx: Context) {
      && PlainBuildDir(ctx) && dir == ctx.buildDir + "/" && SourceHdr(ctx, foo) && SourceHdr(ctx, client)
      && BuildHdr(ctx, fooPb) && BuildHdr(ctx, servicePb) && BuildHdr(ctx, barPb) && BuildHdr(ctx, optionsPb)
    }
  }

  /** The dump in the documentation, and what the parser makes of it. */
  lemma DocumentedDump(ctx: Context, d: Dump)
    requires d.Valid(ctx)
    ensures var o := Run(ctx, START, d.Text());
      && o.Going? && o.s.directHdrs == [d.foo, d.barPb, d.client]
      && o.s.stacks == [[d.foo, d.fooPb], [d.barPb], [d.client, d.optionsPb]]
  {
    DocumentedLines(d);
    DocumentedLast(ctx, d);
    DocumentedStacks(ctx, d);
    PrintedRun(ctx, d.All(), d.Text());
  }

  lemma PrintedRun(ctx: Context, f: Forest, lines: seq<string>)
    requires AllPrintable(f) && lines == Print(f, 1)
    ensures var o := Run(ctx, START, lines);
      o.Going? && o.s.directHdrs == DirectHdrs(ctx, f) && o.s.stacks == Stacks(ctx, f, [])
  {
    var o := Run(ctx, START, lines);
    ConsumesForest(ctx, f, [], START, o);
    ConsumedFromStart(ctx, f, o);
  }

  lemma DocumentedLast(ctx: Context, d: Dump)
    requires d.Valid(ctx)
    ensures Stacks(ctx, d.Last(), []) == [[d.client, d.optionsPb]] && DirectHdrs(ctx, d.Last()) == [d.client]
    ensures AllPrintable(d.Last())
  {
    SourceHdrOf(ctx, d.client);
    BuildHdrOf(ctx, d.optionsPb);
    SmallForest(ctx, [d.client], d.dir + d.optionsPb, Nil, Nil);
    SmallForest(ctx, [], "./" + d.client, d.Options(), Nil);
    assert [] + [d.client] == [d.client] && [d.client] + [d.optionsPb] == [d.client, d.optionsPb];
  }

  lemma DocumentedBelow(ctx: Context, d: Dump)
    requires d.Valid(ctx)
    ensures Stacks(ctx, d.Below(), [d.foo]) == [[d.foo, d.fooPb]] && AllPrintable(d.Below())
  {
    BuildHdrOf(ctx, d.fooPb);
    BuildHdrOf(ctx, d.servicePb);
    SmallForest(ctx, [d.foo], d.dir + d.fooPb, d.Service(), Nil);
    assert [d.foo] + [d.fooPb] == [d.foo, d.fooPb];
  }

  lemma DocumentedStacks(ctx: Context, d: Dump)
    requires d.Valid(ctx)
    requires Stacks(ctx, d.Last(), []) == [[d.client, d.optionsPb]] && DirectHdrs(ctx, d.Last()) == [d.client]
    requires AllPrintable(d.Last())
    ensures Stacks(ctx, d.All(), []) == [[d.foo, d.fooPb], [d.barPb], [d.client, d.optionsPb]]
    ensures DirectHdrs(ctx, d.All()) == [d.foo, d.barPb, d.client] && AllPrintable(d.All())
  {
    SourceHdrOf(ctx, d.foo);
    BuildHdrOf(ctx, d.barPb);
    DocumentedBelow(ctx, d);
    EmptyConcat([d.barPb]);
    EmptyConcat([d.foo]);
    SmallForest(ctx, [], d.dir + d.barPb, Nil, d.Last());
    SmallForest(ctx, [], "./" + d.foo, d.Below(), d.Middle());
  }

  /** The stacks and direct headers of a forest from those of its parts. */
  lemma SmallForest(ctx: Context, prefix: seq<string>, hdr: string, children: Forest, rest: Forest)
    ensures var f, name := Include(hdr, children, rest), Plain(hdr);
      && (!Absolute(name) && Generated(ctx, name) ==>
            Stacks(ctx, f, prefix) == [prefix + [Shown(ctx, name)]] + Stacks(ctx, rest, prefix))
      && (!Absolute(name) && !Generated(ctx, name) ==>
            Stacks(ctx, f, prefix) == Stacks(ctx, children, prefix + [Shown(ctx, name)]) + Stacks(ctx, rest, prefix))
      && (!Absolute(name) ==> DirectHdrs(ctx, f) == [Shown(ctx, name)] + DirectHdrs(ctx, rest))
  {
  }

  lemma DocumentedLines(d: Dump)
    ensures Print(d.All(), 1) == d.Text()
  {
    LineOf("./" + d.foo);
    LineOf("./" + d.client);
    LineOf(d.dir + d.fooPb);
    LineOf(d.dir + d.servicePb);
    LineOf(d.dir + d.barPb);
    LineOf(d.dir + d.optionsPb);
    assert Print(d.Options(), 2) == [Line(2, d.dir + d.optionsPb)];
    assert Print(d.Last(), 1) == [Line(1, "./" + d.client), Line(2, d.dir + d.optionsPb)];
    assert Print(d.Middle(), 1) == [Line(1, d.dir + d.barPb)] + Print(d.Last(), 1);
    assert Print(d.Service(), 3) == [Line(3, d.dir + d.servicePb)];
    assert Print(d.Below(), 2) == [Line(2, d.dir + d.fooPb), Line(3, d.dir + d.servicePb)];
  }

  lemma LineOf(hdr: string)
    ensures Line(1, hdr) == ". " + hdr + "\n"
    ensures Line(2, hdr) == ".. " + hdr + "\n"
    ensures Line(3, hdr) == "... " + hdr + "\n"
  {
    assert Dots(1) + " " == ". " && Dots(2) + " " == ".. " && Dots(3) + " " == "... ";
  }
}
