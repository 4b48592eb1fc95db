/**
 * Instruction sequences over the eight-symbol alphabet `> < + - . , [ ]`, and the
 * bookkeeping used to judge what a generator emits: symbol counts, the net pointer
 * displacement (`>` minus `<`), the net cell delta (`+` minus `-`), bracket balance,
 * and pointer safety (every loop body, and the whole, returns the pointer to where
 * it started).
 */
module Code {
  import opened Wrappers

  const Alphabet: set<char> := {'>', '<', '+', '-', '.', ',', '[', ']'}

  /** Every character is one of the eight instruction symbols. */
  predicate IsCode(s: string) {
    forall i :: 0 <= i < |s| ==> s[i] in Alphabet
  }

  /** No loop bracket: the code runs straight through. */
  predicate Flat(s: string) {
    forall i :: 0 <= i < |s| ==> s[i] != '[' && s[i] != ']'
  }

  /** `k` copies of `c`. */
  function Rep(c: char, k: nat): (r: string)
    ensures |r| == k
    ensures forall i :: 0 <= i < k ==> r[i] == c
  {
    if k == 0 then [] else [c] + Rep(c, k - 1)
  }

  /** Number of occurrences of `c` in `s`. */
  function Count(s: string, c: char): (k: nat)
    ensures k <= |s|
  {
    if s == [] then 0 else (if s[0] == c then 1 else 0) + Count(s[1..], c)
  }

  /** Net pointer displacement. */
  function Disp(s: string): int {
    Count(s, '>') - Count(s, '<')
  }

  /** Net change of the cell values. */
  function Delta(s: string): int {
    Count(s, '+') - Count(s, '-')
  }

  /** A loop around `body`. */
  function Loop(body: string): string {
    "[" + body + "]"
  }

  lemma {:induction false} CountAppend(a: string, b: string, c: char)
    ensures Count(a + b, c) == Count(a, c) + Count(b, c)
  {
    if a == [] {
      assert a + b == b;
    } else {
      assert (a + b)[1..] == a[1..] + b;
      CountAppend(a[1..], b, c);
    }
  }

  /** Displacement and delta distribute over concatenation. */
  lemma CountsAppend(a: string, b: string)
    ensures Count(a + b, '>') == Count(a, '>') + Count(b, '>')
    ensures Count(a + b, '<') == Count(a, '<') + Count(b, '<')
    ensures Disp(a + b) == Disp(a) + Disp(b) && Delta(a + b) == Delta(a) + Delta(b)
  {
    CountAppend(a, b, '>');
    CountAppend(a, b, '<');
    CountAppend(a, b, '+');
    CountAppend(a, b, '-');
  }

  lemma {:induction false} CountRep(c: char, k: nat, d: char)
    ensures Count(Rep(c, k), d) == if c == d then k else 0
  {
    if k > 0 {
      assert Rep(c, k)[1..] == Rep(c, k - 1);
      CountRep(c, k - 1, d);
    }
  }

  /** A loop adds one bracket pair and nothing else. */
  lemma LoopCounts(b: string)
    ensures Disp(Loop(b)) == Disp(b) && Delta(Loop(b)) == Delta(b)
    ensures Count(Loop(b), '<') == Count(b, '<')
    ensures IsCode(Loop(b)) <==> IsCode(b)
  {
    CountsAppend("[" + b, "]");
    CountsAppend("[", b);
    IsCodeAppend("[" + b, "]");
    IsCodeAppend("[", b);
    assert IsCode("[") && IsCode("]");
  }

  /** Counts of three and four pieces. */
  lemma Counts3(a: string, b: string, c: string)
    ensures Count(a + b + c, '<') == Count(a, '<') + Count(b, '<') + Count(c, '<')
    ensures Disp(a + b + c) == Disp(a) + Disp(b) + Disp(c)
    ensures Delta(a + b + c) == Delta(a) + Delta(b) + Delta(c)
  {
    CountsAppend(a, b);
    CountsAppend(a + b, c);
  }

  lemma Counts4(a: string, b: string, c: string, d: string)
    ensures Count(a + b + c + d, '<') == Count(a, '<') + Count(b, '<') + Count(c, '<') + Count(d, '<')
    ensures Disp(a + b + c + d) == Disp(a) + Disp(b) + Disp(c) + Disp(d)
    ensures Delta(a + b + c + d) == Delta(a) + Delta(b) + Delta(c) + Delta(d)
  {
    Counts3(a, b, c);
    CountsAppend(a + b + c, d);
  }

  /** Counts, loop-freedom and the alphabet, for three and four pieces. */
  lemma Append3(a: string, b: string, c: string)
    ensures Disp(a + b + c) == Disp(a) + Disp(b) + Disp(c)
    ensures Delta(a + b + c) == Delta(a) + Delta(b) + Delta(c)
    ensures Flat(a + b + c) <==> Flat(a) && Flat(b) && Flat(c)
    ensures IsCode(a + b + c) <==> IsCode(a) && IsCode(b) && IsCode(c)
  {
    Counts3(a, b, c);
    IsCodeAppend(a, b);
    IsCodeAppend(a + b, c);
  }

  lemma Append4(a: string, b: string, c: string, d: string)
    ensures Disp(a + b + c + d) == Disp(a) + Disp(b) + Disp(c) + Disp(d)
    ensures Delta(a + b + c + d) == Delta(a) + Delta(b) + Delta(c) + Delta(d)
    ensures Flat(a + b + c + d) <==> Flat(a) && Flat(b) && Flat(c) && Flat(d)
    ensures IsCode(a + b + c + d) <==> IsCode(a) && IsCode(b) && IsCode(c) && IsCode(d)
  {
    Append3(a, b, c);
    Counts4(a, b, c, d);
    IsCodeAppend(a + b + c, d);
  }

  /** The fixed fragments the generators splice in, counted. */
  lemma StepFragments()
    ensures Disp("-") == 0 && Delta("-") == -1 && Count("-", '<') == 0 && Flat("-") && IsCode("-")
    ensures Disp("+") == 0 && Delta("+") == 1 && Count("+", '<') == 0 && Flat("+") && IsCode("+")
    ensures Disp(">") == 1 && Delta(">") == 0 && Flat(">") && IsCode(">")
    ensures Disp(".") == 0 && Delta(".") == 0 && Count(".", '.') == 1 && Flat(".") && IsCode(".")
  {
  }

  lemma ClearFragments()
    ensures Disp("[-]") == 0 && Delta("[-]") == -1 && IsCode("[-]")
    ensures Disp("[-]+") == 0 && Delta("[-]+") == 0 && IsCode("[-]+")
  {
  }

  lemma PairFragments()
    ensures Disp("+>+") == 1 && Delta("+>+") == 2 && Count("+>+", '<') == 0
    ensures Flat("+>+") && IsCode("+>+")
    ensures Disp(",>") == 1 && Delta(",>") == 0 && Count(",>", ',') == 1
    ensures Flat(",>") && IsCode(",>")
  {
  }

  lemma IsCodeAppend(a: string, b: string)
    ensures IsCode(a + b) <==> IsCode(a) && IsCode(b)
    ensures Flat(a + b) <==> Flat(a) && Flat(b)
  {
    var s := a + b;
    assert forall i :: 0 <= i < |a| ==> s[i] == a[i];
    assert forall i :: 0 <= i < |b| ==> s[|a| + i] == b[i];
    if IsCode(a) && IsCode(b) {
      forall i | 0 <= i < |s| ensures s[i] in Alphabet {
        if i >= |a| { assert s[i] == b[i - |a|]; }
      }
    }
    if Flat(a) && Flat(b) {
      forall i | 0 <= i < |s| ensures s[i] != '[' && s[i] != ']' {
        if i >= |a| { assert s[i] == b[i - |a|]; }
      }
    }
  }

  // ---------------------------------------------------------------------------
  // Bracket balance

  /** The bracket depth reached by reading `s` from depth `d`; None once a `]`
      closes nothing. */
  function Scan(s: string, d: nat): Option<nat> {
    if s == [] then Some(d)
    else if s[0] == '[' then Scan(s[1..], d + 1)
    else if s[0] == ']' then (if d == 0 then None else Scan(s[1..], d - 1))
    else Scan(s[1..], d)
  }

  /** Every `]` closes an earlier `[` and every `[` is closed. */
  predicate Balanced(s: string) {
    Scan(s, 0) == Some(0)
  }

  /** Continue a scan with `b` from wherever the scan of `a` ended. */
  function ScanThen(o: Option<nat>, b: string): Option<nat> {
    match o
    case None => None
    case Some(e) => Scan(b, e)
  }

  lemma {:induction false} ScanAppend(a: string, b: string, d: nat)
    ensures Scan(a + b, d) == ScanThen(Scan(a, d), b)
  {
    if a == [] {
      assert a + b == b;
    } else {
      assert (a + b)[1..] == a[1..] + b;
      if a[0] == '[' {
        ScanAppend(a[1..], b, d + 1);
      } else if a[0] == ']' {
        if d > 0 { ScanAppend(a[1..], b, d - 1); }
      } else {
        ScanAppend(a[1..], b, d);
      }
    }
  }

  /** Starting deeper only raises the depth reached. */
  lemma {:induction false} ScanShift(s: string, d: nat, k: nat)
    requires Scan(s, d).Some?
    ensures Scan(s, d + k) == Some(Scan(s, d).value + k)
  {
    if s != [] {
      if s[0] == '[' {
        ScanShift(s[1..], d + 1, k);
      } else if s[0] == ']' {
        ScanShift(s[1..], d - 1, k);
      } else {
        ScanShift(s[1..], d, k);
      }
    }
  }

  lemma {:induction false} ScanFlat(s: string, d: nat)
    requires Flat(s)
    ensures Scan(s, d) == Some(d)
  {
    if s != [] {
      ScanFlat(s[1..], d);
    }
  }

  /** A `[` inside a balanced string is closed inside it, so what follows the `[`
      on its own closes a bracket it never opened. */
  lemma OpenInside(a: string, i: nat)
    requires Balanced(a) && i < |a| && a[i] == '['
    ensures Scan(a[i + 1..], 0) == None
  {
    assert a == a[..i] + a[i..];
    ScanAppend(a[..i], a[i..], 0);
    var d := Scan(a[..i], 0).value;
    assert a[i..][1..] == a[i + 1..];
    assert Scan(a[i..], d) == Scan(a[i + 1..], d + 1) == Some(0);
    if Scan(a[i + 1..], 0).Some? {
      ScanShift(a[i + 1..], 0, d + 1);
    }
  }

  /** A `]` right after a balanced prefix closes nothing. */
  lemma CloseAfter(a: string, k: nat)
    requires k < |a| && Balanced(a[..k]) && a[k] == ']'
    ensures Scan(a, 0) == None
  {
    assert a == a[..k] + a[k..];
    ScanAppend(a[..k], a[k..], 0);
  }

  // ---------------------------------------------------------------------------
  // Pointer safety

  /** The `[` at `i` and the `]` at `j` are partners. */
  predicate Matches(s: string, i: int, j: int) {
    0 <= i < j < |s| && s[i] == '[' && s[j] == ']' && Balanced(s[i + 1..j])
  }

  /** Every loop body in `s` leaves the pointer where it found it. */
  predicate LoopsNeutral(s: string) {
    forall i, j | 0 <= i < j < |s| :: Matches(s, i, j) ==> Disp(s[i + 1..j]) == 0
  }

  /** Brackets balanced and every loop body pointer-neutral, so that each test of
      a loop guard reads the cell the loop was entered at. */
  predicate Structured(s: string) {
    Balanced(s) && LoopsNeutral(s)
  }

  /** The pointer-neutrality invariant: structured, and the whole returns the
      pointer to where it started. */
  predicate PointerSafe(s: string) {
    Structured(s) && Disp(s) == 0
  }

  lemma StructuredFlat(s: string)
    requires Flat(s)
    ensures Structured(s)
  {
    ScanFlat(s, 0);
  }

  lemma SafeFlat(s: string)
    requires Flat(s) && Disp(s) == 0
    ensures PointerSafe(s)
  {
    StructuredFlat(s);
  }

  /** Loop bodies of a concatenation of balanced parts lie within one part. */
  lemma StructuredAppend(a: string, b: string)
    requires Structured(a) && Structured(b)
    ensures Structured(a + b)
  {
    var s := a + b;
    ScanAppend(a, b, 0);
    forall i, j | 0 <= i < j < |s| && Matches(s, i, j) ensures Disp(s[i + 1..j]) == 0 {
      if j < |a| {
        assert s[i + 1..j] == a[i + 1..j];
        assert Matches(a, i, j);
      } else if i >= |a| {
        assert s[i + 1..j] == b[i + 1 - |a|..j - |a|];
        assert Matches(b, i - |a|, j - |a|);
      } else {
        assert s[i + 1..j] == a[i + 1..] + b[..j - |a|];
        OpenInside(a, i);
        ScanAppend(a[i + 1..], b[..j - |a|], 0);
        assert false;
      }
    }
  }

  lemma SafeAppend(a: string, b: string)
    requires PointerSafe(a) && PointerSafe(b)
    ensures PointerSafe(a + b)
  {
    StructuredAppend(a, b);
    CountsAppend(a, b);
  }

  /** A loop around a pointer-safe body is pointer-safe. */
  lemma SafeLoop(b: string)
    requires PointerSafe(b)
    ensures PointerSafe(Loop(b))
  {
    var s := Loop(b);
    ScanAppend("[" + b, "]", 0);
    ScanAppend("[", b, 0);
    ScanShift(b, 0, 1);
    LoopCounts(b);
    forall i, j | 0 <= i < j < |s| && Matches(s, i, j) ensures Disp(s[i + 1..j]) == 0 {
      if i == 0 && j == |s| - 1 {
        assert s[i + 1..j] == b;
      } else if i == 0 {
        assert s[1..j] == b[..j - 1];
        CloseAfter(b, j - 1);
        assert false;
      } else if j < |s| - 1 {
        assert s[i + 1..j] == b[i..j - 1];
        assert Matches(b, i - 1, j - 1);
      } else {
        assert s[i + 1..j] == b[i..];
        OpenInside(b, i - 1);
        assert false;
      }
    }
  }

  /** A loop around a flat body, between flat pieces, is balanced and its two
      brackets are partners. */
  lemma FlatLoopBalanced(p: string, body: string, q: string)
    requires Flat(p) && Flat(body) && Flat(q)
    ensures Balanced(p + Loop(body) + q)
    ensures Matches(p + Loop(body) + q, |p|, |p| + |body| + 1)
  {
    ScanFlat(body, 0);
    ScanFlat(body, 1);
    ScanAppend("[", body, 0);
    ScanAppend("[" + body, "]", 0);
    ScanFlat(p, 0);
    ScanFlat(q, 0);
    ScanAppend(p, Loop(body), 0);
    ScanAppend(p + Loop(body), q, 0);
    LoopMatches(p, body, q);
  }

  /** A balanced loop body at position |p| is matched by the closing bracket. */
  lemma LoopMatches(p: string, body: string, q: string)
    requires Balanced(body)
    ensures Matches(p + Loop(body) + q, |p|, |p| + |body| + 1)
    ensures (p + Loop(body) + q)[|p| + 1..|p| + |body| + 1] == body
  {
    var s := p + Loop(body) + q;
    assert s[|p| + 1..|p| + |body| + 1] == body;
  }
}
