/**
 * Directive argument tokens. The preprocessor evaluates each token as a Python
 * expression; this model accepts instead the restricted literal grammar the
 * generators can use: decimal integers with an optional minus sign, quoted
 * text, and bracketed comma-separated integer lists.
 */
module Literals {
  import opened Wrappers
  import opened Strings

  /** A typed argument value. */
  datatype Arg = IntArg(i: int) | TextArg(t: string) | ListArg(l: seq<int>)

  /** The type of an argument, as Python's `type()` reports it. */
  datatype Kind = IntKind | TextKind | ListKind

  function KindOf(a: Arg): Kind {
    match a
    case IntArg(_) => IntKind
    case TextArg(_) => TextKind
    case ListArg(_) => ListKind
  }

  function KindsOf(args: seq<Arg>): (r: seq<Kind>)
    ensures |r| == |args| && forall k :: 0 <= k < |args| ==> r[k] == KindOf(args[k])
  {
    if args == [] then [] else [KindOf(args[0])] + KindsOf(args[1..])
  }

  // ---------------------------------------------------------------- integers

  predicate IsDigit(c: char) {
    '0' <= c <= '9'
  }

  predicate IsDigits(s: string) {
    |s| > 0 && forall k :: 0 <= k < |s| ==> IsDigit(s[k])
  }

  /** The value of a string of decimal digits, most significant first. */
  function DigitsValue(s: string): nat
    requires forall k :: 0 <= k < |s| ==> IsDigit(s[k])
  {
    if s == [] then 0
    else
      assert IsDigit(s[|s| - 1]);
      10 * DigitsValue(s[..|s| - 1]) + (s[|s| - 1] as int - '0' as int)
  }

  /** A Python decimal literal: one or more digits, no leading zero unless every
      digit is zero. */
  predicate WellFormedDecimal(s: string) {
    IsDigits(s) && (s[0] != '0' || forall k :: 0 <= k < |s| ==> s[k] == '0')
  }

  /** An integer token: a decimal literal, possibly preceded by one minus sign. */
  function ParseInt(s: string): (r: Option<int>)
    ensures r.Some? ==> |s| > 0 && (s[0] == '-' || IsDigit(s[0]))
  {
    if |s| > 0 && s[0] == '-' then
      if WellFormedDecimal(s[1..]) then Some(-(DigitsValue(s[1..]) as int)) else None
    else if WellFormedDecimal(s) then Some(DigitsValue(s)) else None
  }

  function Digit(d: nat): (c: char)
    requires d < 10
    ensures IsDigit(c) && c as int - '0' as int == d
  {
    ('0' as int + d) as char
  }

  /** Decimal digits of `n`, most significant first, without leading zeros. */
  function ShowNat(n: nat): (r: string)
    ensures IsDigits(r)
    ensures r[0] != '0' || r == "0"
    decreases n
  {
    if n < 10 then [Digit(n)] else ShowNat(n / 10) + [Digit(n % 10)]
  }

  /** Decimal text of `n`, as Python's `str` writes an int. */
  function ShowInt(n: int): (r: string)
    ensures |r| > 0 && ' ' !in r && ',' !in r && '\\' !in r
  {
    if n < 0 then "-" + ShowNat(-n) else ShowNat(n)
  }

  lemma {:induction false} ShowNatValue(n: nat)
    ensures DigitsValue(ShowNat(n)) == n
    decreases n
  {
    if n >= 10 {
      var r := ShowNat(n);
      assert r[..|r| - 1] == ShowNat(n / 10);
      ShowNatValue(n / 10);
    }
  }

  lemma ShowNatWellFormed(n: nat)
    ensures WellFormedDecimal(ShowNat(n))
  {
    var r := ShowNat(n);
    if r[0] == '0' {
      assert r == "0";
    }
  }

  /** Reading back the decimal text of any integer gives the integer. */
  lemma IntRoundTrip(n: int)
    ensures ParseInt(ShowInt(n)) == Some(n)
  {
    if n < 0 {
      var s := ShowInt(n);
      assert s[0] == '-' && s[1..] == ShowNat(-n);
      ShowNatWellFormed(-n);
      ShowNatValue(-n);
    } else {
      var s := ShowNat(n);
      assert IsDigit(s[0]);
      ShowNatWellFormed(n);
      ShowNatValue(n);
    }
  }

  // ---------------------------------------------------------------- text

  predicate IsQuote(c: char) {
    c == '\'' || c == '"'
  }

  /** A one-line string literal without escapes: the same quote at both ends and
      none of it, no backslash and no line break inside. */
  function ParseText(s: string): (r: Option<string>)
    ensures r.Some? ==> |s| >= 2 && IsQuote(s[0]) && s[|s| - 1] == s[0] && r.value == s[1..|s| - 1]
    ensures r.Some? ==> '\\' !in r.value && '\n' !in r.value && s[0] !in r.value
  {
    if |s| >= 2 && IsQuote(s[0]) && s[|s| - 1] == s[0] then
      var inner := s[1..|s| - 1];
      if s[0] !in inner && '\\' !in inner && '\n' !in inner then Some(inner) else None
    else None
  }

  // ---------------------------------------------------------------- lists

  /** Every part an integer token. */
  function ParseInts(parts: seq<string>): (r: Option<seq<int>>)
    ensures r.Some? ==> |r.value| == |parts|
  {
    if parts == [] then Some([])
    else
      match ParseInt(parts[0])
      case None => None
      case Some(v) =>
        match ParseInts(parts[1..])
        case None => None
        case Some(rest) => Some([v] + rest)
  }

  /** `[]`, or integer tokens separated by commas between brackets. */
  function ParseList(s: string): (r: Option<seq<int>>)
    ensures r.Some? ==> |s| >= 2 && s[0] == '[' && s[|s| - 1] == ']'
  {
    if |s| >= 2 && s[0] == '[' && s[|s| - 1] == ']' then
      var inner := s[1..|s| - 1];
      if inner == "" then Some([]) else ParseInts(Split(inner, ','))
    else None
  }

  /** One argument token. The three forms begin with different characters, so
      at most one of them applies. */
  function ParseLiteral(tok: string): (r: Option<Arg>)
    ensures r.Some? ==> |tok| > 0
    ensures r.Some? && r.value.TextArg? ==> IsQuote(tok[0])
    ensures r.Some? && r.value.ListArg? ==> tok[0] == '['
    ensures r.Some? && r.value.IntArg? ==> tok[0] == '-' || IsDigit(tok[0])
  {
    match ParseInt(tok)
    case Some(i) => Some(IntArg(i))
    case None =>
      match ParseText(tok)
      case Some(t) => Some(TextArg(t))
      case None =>
        match ParseList(tok)
        case Some(l) => Some(ListArg(l))
        case None => None
  }

  // ---------------------------------------------------------------- rendering

  function ShowAll(l: seq<int>): (r: seq<string>)
    ensures |r| == |l| && forall k :: 0 <= k < |l| ==> r[k] == ShowInt(l[k])
  {
    if l == [] then [] else [ShowInt(l[0])] + ShowAll(l[1..])
  }

  /** A value that has a literal form a directive can carry: text that needs no
      escape, fits in one space-separated token and uses at most one quote kind. */
  predicate Renderable(a: Arg) {
    match a
    case TextArg(t) =>
      '\\' !in t && '\n' !in t && ' ' !in t && !('\'' in t && '"' in t)
    case _ => true
  }

  /** The literal form of an argument. */
  function Render(a: Arg): string {
    match a
    case IntArg(i) => ShowInt(i)
    case TextArg(t) => if '\'' !in t then "'" + t + "'" else "\"" + t + "\""
    case ListArg(l) => "[" + Join(ShowAll(l), ",") + "]"
  }

  lemma ParseIntsStep(parts: seq<string>, v: int, rest: seq<int>)
    requires |parts| > 0 && ParseInt(parts[0]) == Some(v) && ParseInts(parts[1..]) == Some(rest)
    ensures ParseInts(parts) == Some([v] + rest)
  {
  }

  lemma {:induction false} ParseShowAll(l: seq<int>)
    ensures ParseInts(ShowAll(l)) == Some(l)
  {
    if l != [] {
      var parts := ShowAll(l);
      assert parts[0] == ShowInt(l[0]);
      assert parts[1..] == ShowAll(l[1..]);
      IntRoundTrip(l[0]);
      ParseShowAll(l[1..]);
      ParseIntsStep(parts, l[0], l[1..]);
      assert l == [l[0]] + l[1..];
    }
  }

  lemma {:induction false} JoinNoChar(parts: seq<string>, sep: string, c: char)
    requires c !in sep
    requires forall k :: 0 <= k < |parts| ==> c !in parts[k]
    ensures c !in Join(parts, sep)
  {
    if |parts| > 1 {
      JoinNoChar(parts[1..], sep, c);
    }
  }

  lemma ListRoundTrip(l: seq<int>)
    ensures ParseList(Render(ListArg(l))) == Some(l)
    ensures ' ' !in Render(ListArg(l))
  {
    var parts := ShowAll(l);
    var s := Render(ListArg(l));
    JoinNoChar(parts, ",", ' ');
    assert s[1..|s| - 1] == Join(parts, ",");
    if l == [] {
    } else {
      SplitJoin(parts, ',');
      ParseShowAll(l);
    }
  }

  /** Every renderable argument reads back as itself from its literal form, and
      that form is a single token. */
  lemma LiteralRoundTrip(a: Arg)
    requires Renderable(a)
    ensures ParseLiteral(Render(a)) == Some(a)
    ensures ' ' !in Render(a)
  {
    match a
    case IntArg(i) =>
      IntRoundTrip(i);
    case TextArg(t) =>
      var s := Render(a);
      assert s[1..|s| - 1] == t;
    case ListArg(l) =>
      ListRoundTrip(l);
  }
}
