/** POSIX paths: parsing, joining, printing and relativising. The POSIX flavour has no drives,
    so a parsed path is its root ("", "/" or "//") and its parts, the root first if there is one. */
module PathLib {
  import opened Prelude
  import opened Strings

  datatype Parsed = Parsed(root: string, parts: seq<string>)

  const SEP := '/'

  function StripSep(s: string): string {
    if s != "" && s[0] == SEP then StripSep(s[1..]) else s
  }

  lemma {:induction false} StripSepIsShorter(s: string)
    ensures |StripSep(s)| <= |s| && (s != "" && s[0] == SEP ==> |StripSep(s)| < |s|)
  {
    if s != "" && s[0] == SEP { StripSepIsShorter(s[1..]); }
  }

  /** The root of a part and what follows it. Exactly two leading slashes are a root of their
      own; more than two count as one (section 4.11 of the POSIX.1-2004 Base Definitions). */
  function SplitRoot(part: string): (string, string) {
    if part != "" && part[0] == SEP then
      var stripped := StripSep(part);
      (if |part| - |stripped| == 2 then "//" else "/", stripped)
    else ("", part)
  }

  /** The components between slashes, without empty ones and dots. */
  function Names(components: seq<string>): seq<string> {
    if components == [] then []
    else (if components[0] == "" || components[0] == "." then [] else [components[0]]) + Names(components[1..])
  }

  lemma {:induction false} NamesConcat(s: seq<string>, t: seq<string>)
    ensures Names(s + t) == Names(s) + Names(t)
    decreases |s|
  {
    if s == [] {
      assert s + t == t;
    } else {
      assert (s + t)[1..] == s[1..] + t;
      NamesConcat(s[1..], t);
    }
  }

  // ---------------------------------------------------------------- parsing

  function Extended(p: Parsed, names: seq<string>): Parsed {
    Parsed(p.root, p.parts + names)
  }

  /** The path p followed by one more argument. */
  function AddArg(p: Parsed, arg: string): Parsed {
    var (root, rel) := SplitRoot(arg);
    var names := Names(SplitOn(rel, SEP));
    if root != "" then Parsed(root, [root] + names) else Extended(p, names)
  }

  /** The path that a list of arguments names: everything from the last rooted argument on. */
  function ParseParts(args: seq<string>): Parsed {
    if args == [] then Parsed("", [])
    else AddArg(ParseParts(args[..|args| - 1]), args[|args| - 1])
  }

  lemma ExtendedTwice(p: Parsed, a: seq<string>, b: seq<string>)
    ensures Extended(Extended(p, a), b) == Extended(p, a + b)
  {
    ConcatAssociative(p.parts, a, b);
  }

  lemma OneMoreName(split: seq<string>, i: nat, tail: seq<string>)
    requires i < |split|
    ensures Names(split[i..]) + tail ==
      (if split[i] == "" || split[i] == "." then [] else [split[i]]) + (Names(split[i + 1..]) + tail)
  {
    assert split[i..][1..] == split[i + 1..];
    ConcatAssociative([split[i]], Names(split[i + 1..]), tail);
  }

  /** Appends the names of one relative part, last one first. */
  method AppendNames(parsed0: seq<string>, rel: string) returns (parsed: seq<string>)
    ensures Reversed(parsed) == Names(SplitOn(rel, SEP)) + Reversed(parsed0)
  {
    parsed := parsed0;
    if SEP in rel {
      var split := SplitOn(rel, SEP);
      var i := |split|;
      while i > 0
        invariant 0 <= i <= |split|
        invariant Reversed(parsed) == Names(split[i..]) + Reversed(parsed0)
      {
        i := i - 1;
        var x := split[i];
        OneMoreName(split, i, Reversed(parsed0));
        if x != "" && x != "." {
          ReversedAppend(parsed, x);
          parsed := parsed + [x];
        }
      }
      assert split[0..] == split;
    } else {
      SplitWithoutSeparator(rel, SEP);
      if rel != "" && rel != "." {
        ReversedAppend(parsed, rel);
        parsed := parsed + [rel];
      }
    }
  }

  /** The arguments are read from the last one back to the first rooted one. */
  method ParsePartsBackwards(args: seq<string>) returns (p: Parsed)
    ensures p == ParseParts(args)
  {
    var parsed: seq<string> := [];
    var root := "";
    var i := |args|;
    assert args[..i] == args;
    while i > 0 && root == ""
      invariant 0 <= i <= |args|
      invariant ParseParts(args) ==
        if root != "" then Parsed(root, [root] + Reversed(parsed))
        else Extended(ParseParts(args[..i]), Reversed(parsed))
    {
      i := i - 1;
      ParseLast(args, i);
      if args[i] != "" {
        var (r, rel) := SplitRoot(args[i]);
        ghost var tail := Reversed(parsed);
        root := r;
        parsed := AppendNames(parsed, rel);
        ExtendedTwice(ParseParts(args[..i]), Names(SplitOn(rel, SEP)), tail);
        ConcatAssociative([r], Names(SplitOn(rel, SEP)), tail);
      }
    }
    if root != "" {
      ReversedAppend(parsed, root);
      parsed := parsed + [root];
    }
    p := Parsed(root, Reversed(parsed));
  }

  lemma ParseLast(args: seq<string>, i: nat)
    requires i < |args|
    ensures ParseParts(args[..i + 1]) == AddArg(ParseParts(args[..i]), args[i])
    ensures args[i] == "" ==> ParseParts(args[..i + 1]) == ParseParts(args[..i])
  {
    assert args[..i + 1][..i] == args[..i];
    assert ParseParts(args[..i]).parts + [] == ParseParts(args[..i]).parts;
    assert Names(SplitOn("", SEP)) == [];
  }

  // ---------------------------------------------------------------- what parsing does to text

  function Slashes(n: nat): string {
    seq(n, _ => '/')
  }

  lemma {:induction false} StripSlashes(n: nat, rel: string)
    requires rel == "" || rel[0] != '/'
    ensures StripSep(Slashes(n) + rel) == rel
    decreases n
  {
    if n == 0 {
      EmptyConcat(rel);
    } else {
      assert (Slashes(n) + rel)[1..] == Slashes(n - 1) + rel;
      StripSlashes(n - 1, rel);
    }
  }

  /** Two leading slashes are a root of their own; one is the root, and so are three and more. */
  lemma RootOfSlashes(n: nat, rel: string)
    requires rel == "" || rel[0] != '/'
    ensures SplitRoot(Slashes(n) + rel) == (if n == 0 then "" else if n == 2 then "//" else "/", rel)
  {
    StripSlashes(n, rel);
    EmptyConcat(rel);
  }

  /** Empty components and single dots are dropped, everything else is kept. */
  lemma {:induction false} NamesOf(components: seq<string>)
    ensures forall x :: x in Names(components) <==> x in components && x != "" && x != "."
    ensures (forall x :: x in components ==> x != "" && x != ".") ==> Names(components) == components
    decreases |components|
  {
    if components == [] {
    } else {
      NamesOf(components[1..]);
      assert components == [components[0]] + components[1..];
      assert components[0] in components && forall x :: x in components[1..] ==> x in components;
    }
  }

  /** One argument: the root it has, and the components of what follows it. */
  lemma ParseOfText(text: string)
    ensures var p, (root, rel) := ParseParts([text]), SplitRoot(text);
      && p.root == root
      && p.parts == (if root == "" then [] else [root]) + Names(SplitOn(rel, '/'))
    ensures ParseParts([text]).root == "" <==> text == "" || text[0] != '/'
  {
    assert [text][..0] == [];
    EmptyConcat(Names(SplitOn(SplitRoot(text).1, '/')));
  }

  /** A rooted argument makes the ones before it void; any other one is appended. */
  lemma LastArgument(args: seq<string>, text: string)
    ensures text != "" && text[0] == '/' ==> ParseParts(args + [text]) == ParseParts([text])
    ensures text == "" || text[0] != '/' ==>
      ParseParts(args + [text]) == Extended(ParseParts(args), Names(SplitOn(text, '/')))
  {
    assert (args + [text])[..|args|] == args && [text][..0] == [];
  }

  // ---------------------------------------------------------------- canonical paths

  predicate IsName(s: string) {
    s != "" && s != "." && SEP !in s
  }

  /** What parsing produces. */
  predicate Canonical(p: Parsed) {
    && p.root in ["", "/", "//"]
    && (p.root != "" ==> p.parts != [] && p.parts[0] == p.root)
    && forall i :: (if p.root != "" then 1 else 0) <= i < |p.parts| ==> IsName(p.parts[i])
  }

  lemma {:induction false} NamesAreNames(components: seq<string>)
    requires forall c :: c in components ==> SEP !in c
    ensures forall c :: c in Names(components) ==> IsName(c)
    decreases |components|
  {
    if components == [] {
    } else {
      assert components[0] in components;
      NamesAreNames(components[1..]);
    }
  }

  lemma {:induction false} NamesOfNames(names: seq<string>)
    requires forall n :: n in names ==> IsName(n)
    ensures Names(names) == names
    decreases |names|
  {
    if names == [] {
    } else {
      assert names[0] in names;
      NamesOfNames(names[1..]);
    }
  }

  lemma {:induction false} ParsedIsCanonical(args: seq<string>)
    ensures Canonical(ParseParts(args))
    decreases |args|
  {
    if args == [] {
    } else {
      var (root, rel) := SplitRoot(args[|args| - 1]);
      PartsHaveNoSeparator(rel, SEP);
      NamesAreNames(SplitOn(rel, SEP));
      ParsedIsCanonical(args[..|args| - 1]);
    }
  }

  // ---------------------------------------------------------------- joining

  function JoinParsedParts(p: Parsed, q: Parsed): Parsed {
    if q.root != "" then q else Extended(p, q.parts)
  }

  lemma JoinAddArg(p: Parsed, q: Parsed, arg: string)
    ensures JoinParsedParts(p, AddArg(q, arg)) == AddArg(JoinParsedParts(p, q), arg)
  {
    ConcatAssociative(p.parts, q.parts, Names(SplitOn(SplitRoot(arg).1, SEP)));
  }

  /** Parsing a concatenated argument list is joining the two parses. */
  lemma {:induction false} ParseConcat(xs: seq<string>, ys: seq<string>)
    ensures ParseParts(xs + ys) == JoinParsedParts(ParseParts(xs), ParseParts(ys))
    decreases |ys|
  {
    if ys == [] {
      assert xs + ys == xs;
    } else {
      var n := |ys| - 1;
      assert (xs + ys)[..|xs| + n] == xs + ys[..n];
      ParseConcat(xs, ys[..n]);
      JoinAddArg(ParseParts(xs), ParseParts(ys[..n]), ys[n]);
    }
  }

  // ---------------------------------------------------------------- printing

  function FormatParsedParts(p: Parsed): string {
    if p.root != "" && p.parts != [] then p.root + Join(p.parts[1..], SEP)
    else Join(p.parts, SEP)
  }

  function Str(p: Parsed): string {
    var s := FormatParsedParts(p);
    if s == "" then "." else s
  }

  lemma {:induction false} JoinedNames(names: seq<string>)
    requires forall n :: n in names ==> IsName(n)
    ensures Names(SplitOn(Join(names, SEP), SEP)) == names
    ensures StripSep(Join(names, SEP)) == Join(names, SEP)
    ensures names != [] ==> Join(names, SEP) != ""
  {
    if names == [] {
      assert SplitOn("", SEP) == [""];
    } else {
      SplitOfJoin(names, SEP);
      NamesOfNames(names);
      assert names[0] in names && names[0][0] in names[0];
      assert Join(names, SEP)[0] == names[0][0];
    }
  }

  /** Parsing the printed form of a path gives the path back. */
  lemma ParseOfStr(p: Parsed)
    requires Canonical(p)
    ensures ParseParts([Str(p)]) == p
  {
    assert [Str(p)][..0] == [];
    if p.root == "" {
      JoinedNames(p.parts);
      if p.parts == [] {
        assert SplitOn(".", SEP) == ["."] by { SplitWithoutSeparator(".", SEP); }
      }
    } else {
      var names := p.parts[1..];
      JoinedNames(names);
      SplitOfRooted(p.root, Join(names, SEP));
    }
  }

  lemma SplitOfRooted(root: string, tail: string)
    requires (root == "/" || root == "//") && StripSep(tail) == tail
    ensures SplitRoot(root + tail) == (root, tail)
  {
    var s := root + tail;
    assert StripSep(s) == tail by {
      if root == "/" {
        assert s[1..] == tail;
      } else {
        assert s[1..] == "/" + tail && s[1..][1..] == tail;
      }
    }
  }

  /** Passing the parts of a path as arguments gives the path back. */
  lemma ParseOfParts(p: Parsed)
    requires Canonical(p)
    ensures ParseParts(p.parts) == p
  {
    var k := if p.root != "" then 1 else 0;
    ParseNames(p.parts[k..]);
    assert p.parts == p.parts[..k] + p.parts[k..];
    ParseConcat(p.parts[..k], p.parts[k..]);
    if k == 1 {
      assert p.parts[..1] == [p.root];
      ParseOfStr(Parsed(p.root, [p.root]));
    }
  }

  lemma AddName(p: Parsed, name: string)
    requires IsName(name)
    ensures AddArg(p, name) == Extended(p, [name])
  {
    assert name[0] in name;
    SplitWithoutSeparator(name, SEP);
    NamesOfNames([name]);
  }

  lemma {:induction false} ParseNames(names: seq<string>)
    requires forall n :: n in names ==> IsName(n)
    ensures ParseParts(names) == Parsed("", names)
    decreases |names|
  {
    if names == [] {
    } else {
      var n := |names| - 1;
      assert names == names[..n] + [names[n]];
      ParseNames(names[..n]);
      AddName(Parsed("", names[..n]), names[n]);
    }
  }

  // ---------------------------------------------------------------- relative paths

  /** An argument that is text, or a path that stands for its parts. */
  datatype Arg = Text(s: string) | Path(p: Parsed)

  function PartsOf(args: seq<Arg>): seq<string> {
    if args == [] then []
    else (match args[0] case Text(s) => [s] case Path(p) => p.parts) + PartsOf(args[1..])
  }

  function ParseArgs(args: seq<Arg>): Parsed {
    ParseParts(PartsOf(args))
  }

  lemma {:induction false} PartsOfConcat(a: seq<Arg>, b: seq<Arg>)
    ensures PartsOf(a + b) == PartsOf(a) + PartsOf(b)
    decreases |a|
  {
    if a == [] {
      EmptyConcat(b);
      EmptyConcat(PartsOf(b));
    } else {
      assert (a + b)[1..] == a[1..] + b;
      PartsOfConcat(a[1..], b);
    }
  }

  /** Arguments given as text are parsed as they are; lists of arguments are parsed by joining. */
  lemma ArgumentsAreParsed(a: seq<Arg>, b: seq<Arg>, text: string)
    ensures ParseArgs([Text(text)]) == ParseParts([text])
    ensures ParseArgs(a + b) == JoinParsedParts(ParseArgs(a), ParseArgs(b))
  {
    assert PartsOf([Text(text)]) == [text] + PartsOf([]);
    PartsOfConcat(a, b);
    ParseConcat(PartsOf(a), PartsOf(b));
  }

  function MakeChild(p: Parsed, args: seq<Arg>): Parsed {
    JoinParsedParts(p, ParseArgs(args))
  }

  /** Root and drive of a rooted path count as separate parts. */
  function AbsoluteParts(p: Parsed): seq<string> {
    if p.root != "" && p.parts != [] then ["", p.root] + p.parts[1..] else p.parts
  }

  /** None stands for the errors: no argument at all, or a path that is not below the other. */
  function RelativeTo(p: Parsed, other: seq<Arg>): Option<Parsed> {
    var absParts, toAbsParts := AbsoluteParts(p), AbsoluteParts(ParseArgs(other));
    var n := |toAbsParts|;
    if other == [] || (n == 0 && p.root != "") then None
    else if n > |absParts| || absParts[..n] != toAbsParts then None
    else Some(Parsed(if n == 1 then p.root else "", absParts[n..]))
  }

  lemma ParseOfPath(p: Parsed)
    requires Canonical(p)
    ensures ParseArgs([Path(p)]) == p
  {
    assert PartsOf([Path(p)]) == p.parts + PartsOf([]) == p.parts;
    ParseOfParts(p);
  }

  lemma JoinedIsRelative(p: Parsed, q: Parsed)
    requires Canonical(p) && Canonical(q) && q.root == ""
    ensures RelativeTo(MakeChild(p, [Path(q)]), [Path(p)]) == Some(q)
  {
    ParseOfPath(p);
    ParseOfPath(q);
    var toAbsParts := AbsoluteParts(p);
    AbsoluteOfExtended(p, q.parts);
    assert (toAbsParts + q.parts)[..|toAbsParts|] == toAbsParts && (toAbsParts + q.parts)[|toAbsParts|..] == q.parts;
    assert MakeChild(p, [Path(q)]) == Extended(p, q.parts);
    assert q == Parsed("", q.parts);
  }

  lemma AbsoluteOfExtended(p: Parsed, names: seq<string>)
    requires Canonical(p)
    ensures AbsoluteParts(Extended(p, names)) == AbsoluteParts(p) + names
    ensures p.root != "" ==> |AbsoluteParts(p)| > 1
  {
    if p.root != "" {
      ConcatDrop(p.parts, names, 1);
      ConcatAssociative(["", p.root], p.parts[1..], names);
    }
  }

  lemma ConcatDrop(a: seq<string>, b: seq<string>, k: nat)
    requires k <= |a|
    ensures (a + b)[k..] == a[k..] + b
  {
  }

  /** A path whose absolute parts begin with those of p extends p. */
  lemma BeginsWith(r: Parsed, p: Parsed, names: seq<string>)
    requires Canonical(r) && Canonical(p) && p.parts != []
    requires AbsoluteParts(r) == AbsoluteParts(p) + names
    ensures r == Extended(p, names) && Canonical(Parsed("", names))
  {
    var absParts, toAbsParts := AbsoluteParts(r), AbsoluteParts(p);
    assert absParts[0] == toAbsParts[0];
    if p.root != "" {
      assert absParts[1] == toAbsParts[1] == p.root;
      ConcatDrop(toAbsParts, names, 2);
      assert r.parts[1..] == absParts[2..] == p.parts[1..] + names;
      assert r.parts == [r.root] + r.parts[1..] && p.parts == [p.root] + p.parts[1..];
      ConcatAssociative([p.root], p.parts[1..], names);
    }
    NamesAtTheEnd(r, p.parts, names);
  }

  lemma NamesAtTheEnd(r: Parsed, before: seq<string>, names: seq<string>)
    requires Canonical(r) && before != [] && r.parts == before + names
    ensures Canonical(Parsed("", names))
  {
    forall i | 0 <= i < |names| ensures IsName(names[i]) { assert names[i] == r.parts[|before| + i]; }
  }

  lemma RelativeIsJoined(r: Parsed, p: Parsed)
    requires Canonical(r) && Canonical(p) && RelativeTo(r, [Path(p)]).Some?
    ensures var q := RelativeTo(r, [Path(p)]).value;
      Canonical(q) && q.root == "" && r == MakeChild(p, [Path(q)])
  {
    ParseOfPath(p);
    var q := RelativeTo(r, [Path(p)]).value;
    var absParts, toAbsParts := AbsoluteParts(r), AbsoluteParts(p);
    var n := |toAbsParts|;
    if p.parts == [] {
      assert q == r;
    } else {
      assert absParts == absParts[..n] + absParts[n..];
      BeginsWith(r, p, q.parts);
    }
    ParseOfPath(q);
  }

  /** `relative_to` inverts joining: it succeeds exactly on the paths p / q with q relative,
      and then returns q. */
  lemma RelativeToInvertsJoin(r: Parsed, p: Parsed, q: Parsed)
    requires Canonical(r) && Canonical(p)
    ensures RelativeTo(r, [Path(p)]) == Some(q) <==>
      Canonical(q) && q.root == "" && r == MakeChild(p, [Path(q)])
  {
    if RelativeTo(r, [Path(p)]).Some? { RelativeIsJoined(r, p); }
    if Canonical(q) && q.root == "" { JoinedIsRelative(p, q); }
  }
}
