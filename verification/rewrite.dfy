/**
 * The per-line rewrite: find the directive span the pattern `\(.*\)` matches
 * (an opening parenthesis, then any characters except a line break, then a
 * closing parenthesis; leftmost start, longest match), split it into a name
 * and argument tokens, run the registered generator and substitute its output
 * for the span.
 */
module Rewrite {
  import opened Wrappers
  import opened Strings
  import opened Literals
  import opened Registry
  import Primitives

  /** A match of the pattern: `line[start..end + 1]`. */
  datatype Span = Span(start: nat, end: nat)

  /** The pattern matches `line[i..j + 1]`. */
  predicate MatchAt(line: string, i: int, j: int) {
    0 <= i < j < |line| && line[i] == '(' && line[j] == ')'
    && forall k :: i < k < j ==> line[k] != '\n'
  }

  /** The last `)` between `k` and the next line break (or the end of the line). */
  function CloseFrom(line: string, k: nat): (r: Option<nat>)
    ensures r.Some? ==> k <= r.value < |line| && line[r.value] == ')'
    ensures r.Some? ==> forall x :: k <= x <= r.value ==> line[x] != '\n'
    decreases |line| - k
  {
    if k >= |line| || line[k] == '\n' then None
    else
      match CloseFrom(line, k + 1)
      case Some(j) => Some(j)
      case None => if line[k] == ')' then Some(k) else None
  }

  /** `CloseFrom` finds the last `)` reachable without crossing a line break. */
  lemma {:induction false} CloseFromLast(line: string, k: nat, x: nat)
    requires k <= x < |line| && line[x] == ')'
    requires forall y :: k <= y < x ==> line[y] != '\n'
    ensures CloseFrom(line, k).Some? && x <= CloseFrom(line, k).value
    decreases |line| - k
  {
    if k < x {
      CloseFromLast(line, k + 1, x);
    }
  }

  /** The first start at or after `i` from which the pattern matches, with the
      longest match from there. */
  function SearchFrom(line: string, i: nat): (r: Option<Span>)
    ensures r.Some? ==> i <= r.value.start && MatchAt(line, r.value.start, r.value.end)
    decreases |line| - i
  {
    if i >= |line| then None
    else if line[i] == '(' && CloseFrom(line, i + 1).Some? then
      Some(Span(i, CloseFrom(line, i + 1).value))
    else SearchFrom(line, i + 1)
  }

  /** The pattern's first match on the line. */
  function FindSpan(line: string): (r: Option<Span>)
    ensures r.Some? ==> MatchAt(line, r.value.start, r.value.end)
  {
    SearchFrom(line, 0)
  }

  lemma {:induction false} SearchFromSound(line: string, i: nat)
    ensures SearchFrom(line, i).Some? ==>
      var sp := SearchFrom(line, i).value;
      i <= sp.start && MatchAt(line, sp.start, sp.end)
      && (forall a, b :: i <= a < sp.start ==> !MatchAt(line, a, b))
      && (forall b :: sp.end < b ==> !MatchAt(line, sp.start, b))
    ensures SearchFrom(line, i).None? ==> forall a, b :: i <= a ==> !MatchAt(line, a, b)
    decreases |line| - i
  {
    if i < |line| {
      SearchFromSound(line, i + 1);
      if line[i] == '(' && CloseFrom(line, i + 1).Some? {
        var j := CloseFrom(line, i + 1).value;
        forall b | j < b
          ensures !MatchAt(line, i, b)
        {
          if MatchAt(line, i, b) {
            CloseFromLast(line, i + 1, b);
          }
        }
      } else {
        forall b
          ensures !MatchAt(line, i, b)
        {
          if MatchAt(line, i, b) {
            CloseFromLast(line, i + 1, b);
          }
        }
      }
    }
  }

  /** `FindSpan` is the pattern's leftmost match, and the longest one starting
      there; it finds nothing exactly when the pattern matches nowhere. */
  lemma FindSpanIsLeftmostLongest(line: string)
    ensures FindSpan(line).Some? ==>
      var sp := FindSpan(line).value;
      MatchAt(line, sp.start, sp.end)
      && (forall a, b :: a < sp.start ==> !MatchAt(line, a, b))
      && (forall b :: sp.end < b ==> !MatchAt(line, sp.start, b))
    ensures FindSpan(line).None? <==> forall a, b :: !MatchAt(line, a, b)
  {
    SearchFromSound(line, 0);
  }

  /** A line as `readlines` yields it: a line break can only be its last character. */
  predicate SingleLine(line: string) {
    forall k :: 0 <= k < |line| - 1 ==> line[k] != '\n'
  }

  /** On a single line the span runs from the first `(` to the last `)`, and there
      is one exactly when some `(` comes before some `)`. */
  lemma SpanFirstLast(line: string)
    requires SingleLine(line)
    ensures FindSpan(line).Some? <==> exists i, j :: 0 <= i < j < |line| && line[i] == '(' && line[j] == ')'
    ensures FindSpan(line).Some? ==>
      var sp := FindSpan(line).value;
      line[sp.start] == '(' && line[sp.end] == ')'
      && (forall k :: 0 <= k < sp.start ==> line[k] != '(')
      && (forall k :: sp.end < k < |line| ==> line[k] != ')')
  {
    FindSpanIsLeftmostLongest(line);
    if FindSpan(line).Some? {
      var sp := FindSpan(line).value;
      forall k | 0 <= k < sp.start
        ensures line[k] != '('
      {
        assert !MatchAt(line, k, sp.end);
      }
      forall k | sp.end < k < |line|
        ensures line[k] != ')'
      {
        assert !MatchAt(line, sp.start, k);
      }
    } else {
      forall i, j | 0 <= i < j < |line| && line[i] == '('
        ensures line[j] != ')'
      {
        assert !MatchAt(line, i, j);
      }
    }
  }

  // ---------------------------------------------------------------- directive text

  /** A directive call: name and evaluated arguments. */
  datatype Call = Call(name: string, args: seq<Arg>)

  /** Every token read as a literal, in order (ParseArgsEach). */
  function ParseArgs(toks: seq<string>): (r: Option<seq<Arg>>)
    ensures r.Some? ==> |r.value| == |toks|
  {
    if toks == [] then Some([])
    else
      match ParseLiteral(toks[0])
      case None => None
      case Some(a) =>
        match ParseArgs(toks[1..])
        case None => None
        case Some(rest) => Some([a] + rest)
  }

  /** Strip the parentheses, split on single spaces: the first piece is the name
      and the rest are argument tokens. */
  function ParseDirective(span: string): (r: Option<Call>)
    ensures r.Some? ==> ' ' !in r.value.name
  {
    var inner := if |span| >= 2 then span[1..|span| - 1] else "";
    var parts := Split(inner, ' ');
    match ParseArgs(parts[1..])
    case None => None
    case Some(args) => Some(Call(parts[0], args))
  }

  function RenderAll(args: seq<Arg>): (r: seq<string>)
    ensures |r| == |args| && forall k :: 0 <= k < |args| ==> r[k] == Render(args[k])
  {
    if args == [] then [] else [Render(args[0])] + RenderAll(args[1..])
  }

  /** How a call is written in a source line. */
  function DirectiveText(c: Call): string {
    "(" + Join([c.name] + RenderAll(c.args), " ") + ")"
  }

  /** `map(eval, …)`: the k-th argument is the k-th token's literal, and the
      whole fails iff some token fails. */
  lemma {:induction false} ParseArgsEach(toks: seq<string>)
    ensures ParseArgs(toks).Some? ==>
      forall k :: 0 <= k < |toks| ==> ParseLiteral(toks[k]) == Some(ParseArgs(toks).value[k])
    ensures ParseArgs(toks).None? <==> exists k :: 0 <= k < |toks| && ParseLiteral(toks[k]).None?
  {
    if toks != [] {
      ParseArgsEach(toks[1..]);
      if ParseLiteral(toks[0]).Some? && ParseArgs(toks[1..]).None? {
        var k :| 0 <= k < |toks[1..]| && ParseLiteral(toks[1..][k]).None?;
        assert ParseLiteral(toks[k + 1]).None?;
      }
      if ParseArgs(toks).Some? {
        forall k | 1 <= k < |toks|
          ensures ParseLiteral(toks[k]) == Some(ParseArgs(toks).value[k])
        {
          assert toks[k] == toks[1..][k - 1];
        }
      }
    }
  }

  lemma ParseArgsStep(toks: seq<string>, a: Arg, rest: seq<Arg>)
    requires |toks| > 0 && ParseLiteral(toks[0]) == Some(a) && ParseArgs(toks[1..]) == Some(rest)
    ensures ParseArgs(toks) == Some([a] + rest)
  {
  }

  lemma {:induction false} ParseRenderAll(args: seq<Arg>)
    requires forall k :: 0 <= k < |args| ==> Renderable(args[k])
    ensures ParseArgs(RenderAll(args)) == Some(args)
  {
    if args != [] {
      var toks := RenderAll(args);
      assert toks[0] == Render(args[0]);
      assert toks[1..] == RenderAll(args[1..]);
      LiteralRoundTrip(args[0]);
      ParseRenderAll(args[1..]);
      ParseArgsStep(toks, args[0], args[1..]);
      assert args == [args[0]] + args[1..];
    }
  }

  /** Writing a call out and parsing it back gives the call, for every name
      without a space and every argument with a literal form. */
  lemma DirectiveRoundTrip(c: Call)
    requires ' ' !in c.name
    requires forall k :: 0 <= k < |c.args| ==> Renderable(c.args[k])
    ensures ParseDirective(DirectiveText(c)) == Some(c)
  {
    var parts := [c.name] + RenderAll(c.args);
    forall k | 0 <= k < |parts|
      ensures ' ' !in parts[k]
    {
      if k > 0 {
        LiteralRoundTrip(c.args[k - 1]);
      }
    }
    SplitJoin(parts, ' ');
    var s := DirectiveText(c);
    assert s[1..|s| - 1] == Join(parts, " ");
    assert parts[1..] == RenderAll(c.args);
    ParseRenderAll(c.args);
  }

  /** The generated text for a directive span, or None when the name is not
      registered, a token is not a literal, or the generator rejects the
      arguments. */
  function Expand(span: string): (r: Option<string>)
    ensures r.Some? ==> ParseDirective(span).Some? && ParseDirective(span).value.name in Table
  {
    match ParseDirective(span)
    case None => None
    case Some(c) =>
      match Lookup(c.name)
      case None => None
      case Some(d) => Generate(d, c.args)
  }

  /** Expanding a written-out call looks its name up and runs the generator
      registered under it on the arguments; an unregistered name fails. */
  lemma ExpandCall(c: Call)
    requires ' ' !in c.name
    requires forall k :: 0 <= k < |c.args| ==> Renderable(c.args[k])
    ensures Expand(DirectiveText(c))
      == if c.name in Table then Generate(Table[c.name], c.args) else None
  {
    DirectiveRoundTrip(c);
  }

  /** `re.sub`: every match, scanning left to right, replaced by `t`. */
  function SubAll(line: string, t: string): string
    decreases |line|
  {
    match FindSpan(line)
    case None => line
    case Some(sp) => line[..sp.start] + t + SubAll(line[sp.end + 1..], t)
  }

  /** Rewrite one line. A line the pattern does not match is kept; otherwise the
      first match is expanded and the expansion substituted. None when the
      expansion fails. */
  function RewriteLine(line: string): (r: Option<string>)
    ensures r.None? ==> FindSpan(line).Some?
  {
    match FindSpan(line)
    case None => Some(line)
    case Some(sp) =>
      match Expand(line[sp.start..sp.end + 1])
      case None => None
      case Some(t) => Some(SubAll(line, t))
  }

  /** A line without a `(` ... `)` match comes back unchanged. */
  lemma NoDirectiveUnchanged(line: string)
    requires forall a, b :: !MatchAt(line, a, b)
    ensures RewriteLine(line) == Some(line)
  {
    FindSpanIsLeftmostLongest(line);
  }

  /** On a single line the pattern matches once, so `re.sub` replaces only the
      first match. */
  lemma SubOnce(line: string, sp: Span, t: string)
    requires SingleLine(line) && FindSpan(line) == Some(sp)
    ensures SubAll(line, t) == line[..sp.start] + t + line[sp.end + 1..]
  {
    SpanFirstLast(line);
    var rest := line[sp.end + 1..];
    FindSpanIsLeftmostLongest(rest);
    assert SubAll(rest, t) == rest;
  }

  /** On a single line only the span from the first `(` to the last `)` is
      replaced, by the expansion of that span; the text before and after it is
      kept verbatim. The line fails exactly when the expansion does. */
  lemma RewriteKeepsContext(line: string, sp: Span)
    requires SingleLine(line) && FindSpan(line) == Some(sp)
    ensures RewriteLine(line).None? <==> Expand(line[sp.start..sp.end + 1]).None?
    ensures RewriteLine(line).Some? ==>
      RewriteLine(line).value
      == line[..sp.start] + Expand(line[sp.start..sp.end + 1]).value + line[sp.end + 1..]
  {
    var e := Expand(line[sp.start..sp.end + 1]);
    if e.Some? {
      SubOnce(line, sp, e.value);
    }
  }

  /** The text a line becomes: its rewrite, or the line itself if the rewrite fails. */
  function Output(line: string): string {
    RewriteLine(line).GetOr(line)
  }

  /** The output of every line. */
  function Outputs(lines: seq<string>): (r: seq<string>)
    ensures |r| == |lines|
    ensures forall k :: 0 <= k < |lines| ==> r[k] == Output(lines[k])
  {
    seq(|lines|, k requires 0 <= k < |lines| => Output(lines[k]))
  }

  /** The indices below `i` at which `flags` is set, in order. */
  function SetBelow(flags: seq<bool>, i: nat): seq<nat>
    requires i <= |flags|
  {
    if i == 0 then [] else SetBelow(flags, i - 1) + (if flags[i - 1] then [i - 1] else [])
  }

  /** Which lines fail to rewrite. */
  function Failures(lines: seq<string>): (r: seq<bool>)
    ensures |r| == |lines|
    ensures forall k :: 0 <= k < |lines| ==> r[k] == RewriteLine(lines[k]).None?
  {
    seq(|lines|, k requires 0 <= k < |lines| => RewriteLine(lines[k]).None?)
  }

  /** `SetBelow` lists exactly the set indices below `i`, increasing. */
  lemma {:induction false} SetBelowFacts(flags: seq<bool>, i: nat)
    requires i <= |flags|
    ensures forall k :: 0 <= k < i ==> (k in SetBelow(flags, i) <==> flags[k])
    ensures forall k :: k in SetBelow(flags, i) ==> k < i
    ensures forall a, b :: 0 <= a < b < |SetBelow(flags, i)| ==> SetBelow(flags, i)[a] < SetBelow(flags, i)[b]
  {
    if i > 0 {
      SetBelowFacts(flags, i - 1);
      var prev := SetBelow(flags, i - 1);
      var now := SetBelow(flags, i);
      if flags[i - 1] {
        assert now == prev + [i - 1];
        forall a, b | 0 <= a < b < |now| ensures now[a] < now[b] {
          if b == |prev| {
            assert prev[a] in prev;
          }
        }
      } else {
        assert now == prev;
      }
    }
  }

  /** The driver loop: rewrite every line in order. A line whose directive cannot
      be expanded is kept verbatim and its index reported. */
  method Preprocess(lines: seq<string>) returns (out: seq<string>, failed: seq<nat>)
    ensures |out| == |lines|
    ensures forall k :: 0 <= k < |lines| ==> out[k] == Output(lines[k])
    ensures forall k :: 0 <= k < |lines| ==> (k in failed <==> RewriteLine(lines[k]).None?)
    ensures forall k :: k in failed ==> k < |lines|
    ensures forall a, b :: 0 <= a < b < |failed| ==> failed[a] < failed[b]
  {
    out := [];
    failed := [];
    for i := 0 to |lines|
      invariant out == Outputs(lines)[..i]
      invariant failed == SetBelow(Failures(lines), i)
    {
      var r := RewriteLine(lines[i]);
      out := out + [r.GetOr(lines[i])];
      if r.None? {
        failed := failed + [i];
      }
    }
    assert Outputs(lines)[..|lines|] == Outputs(lines);
    SetBelowFacts(Failures(lines), |lines|);
  }

  lemma IncrementText()
    ensures DirectiveText(Call("+", [IntArg(5)])) == "(+ 5)"
  {
    assert ShowInt(5) == "5";
    assert RenderAll([IntArg(5)]) == ["5"];
    assert Join(["+", "5"], " ") == "+ 5";
  }

  /** `(+ 5)` parses to the `+` directive with argument 5 and expands to five `+`. */
  lemma ExampleExpand()
    ensures Expand("(+ 5)") == Some("+++++")
  {
    IncrementText();
    ExpandCall(Call("+", [IntArg(5)]));
    assert Primitives.Inc(5) == "+++++";
  }

  lemma IncrementSpan()
    ensures SingleLine("x(+ 5)y\n") && FindSpan("x(+ 5)y\n") == Some(Span(1, 5))
    ensures "x(+ 5)y\n"[1..6] == "(+ 5)"
    ensures "x(+ 5)y\n"[..1] + "+++++" + "x(+ 5)y\n"[6..] == "x+++++y\n"
  {
    var line := "x(+ 5)y\n";
    SpanFirstLast(line);
    assert MatchAt(line, 1, 5);
    assert line[..1] == "x" && line[6..] == "y\n";
  }

  /** In `x(+ 5)y` only the directive is replaced. */
  lemma ExampleIncrement()
    ensures RewriteLine("x(+ 5)y\n") == Some("x+++++y\n")
  {
    IncrementSpan();
    ExampleExpand();
    RewriteKeepsContext("x(+ 5)y\n", Span(1, 5));
  }

  lemma UnknownText()
    ensures DirectiveText(Call("bogus", [IntArg(1)])) == "(bogus 1)"
  {
    assert ShowInt(1) == "1";
    assert RenderAll([IntArg(1)]) == ["1"];
    assert Join(["bogus", "1"], " ") == "bogus 1";
  }

  /** An unregistered name does not expand. */
  lemma ExampleUnknownExpand()
    ensures Expand("(bogus 1)") == None
  {
    UnknownText();
    ExpandCall(Call("bogus", [IntArg(1)]));
    assert "bogus" !in Table;
  }

  /** An unregistered name fails the line, and the driver keeps it verbatim. */
  lemma ExampleUnknown()
    ensures RewriteLine("(bogus 1)") == None
    ensures Output("(bogus 1)") == "(bogus 1)"
  {
    var line := "(bogus 1)";
    SpanFirstLast(line);
    assert MatchAt(line, 0, 8);
    var sp := FindSpan(line).value;
    assert sp == Span(0, 8);
    assert line[0..9] == line;
    ExampleUnknownExpand();
    RewriteKeepsContext(line, sp);
  }
}
