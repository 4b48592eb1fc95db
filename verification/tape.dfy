/**
 * A tape machine for straight-line code: unbounded integer cells, one pointer,
 * an input stream and an output stream. Loops are not executed (a bracket stops
 * the run), which is enough to state what each loop-free generator output and
 * each single pass of a loop-free loop body does to the tape.
 */
module Tape {
  import opened Wrappers

  datatype State = State(cells: map<int, int>, ptr: int, input: seq<int>, output: seq<int>)

  /** The value of cell `i`; cells never written hold 0. */
  function Cell(m: map<int, int>, i: int): int {
    if i in m then m[i] else 0
  }

  /** The two tapes agree on every cell. */
  ghost predicate SameCells(m1: map<int, int>, m2: map<int, int>) {
    forall i :: Cell(m1, i) == Cell(m2, i)
  }

  /** Add `k` to cell `p`. */
  function AddAt(m: map<int, int>, p: int, k: int): (r: map<int, int>)
    ensures forall i :: Cell(r, i) == Cell(m, i) + (if i == p then k else 0)
  {
    if k == 0 then m else m[p := Cell(m, p) + k]
  }

  /** One instruction. A bracket, or `,` at the end of the input, has no
      straight-line meaning and yields None; any other character is a comment. */
  function Step(st: State, op: char): Option<State> {
    match op
    case '>' => Some(st.(ptr := st.ptr + 1))
    case '<' => Some(st.(ptr := st.ptr - 1))
    case '+' => Some(st.(cells := AddAt(st.cells, st.ptr, 1)))
    case '-' => Some(st.(cells := AddAt(st.cells, st.ptr, -1)))
    case '.' => Some(st.(output := st.output + [Cell(st.cells, st.ptr)]))
    case ',' =>
      if |st.input| == 0 then None
      else Some(st.(cells := st.cells[st.ptr := st.input[0]], input := st.input[1..]))
    case '[' => None
    case ']' => None
    case _ => Some(st)
  }

  /** Run `s` from left to right. */
  function Run(s: string, st: State): Option<State> {
    if s == [] then Some(st)
    else
      match Step(st, s[0])
      case None => None
      case Some(next) => Run(s[1..], next)
  }

  /** Running a single instruction is one step. */
  lemma RunOne(op: char, st: State)
    ensures Run([op], st) == Step(st, op)
  {
    assert [op][1..] == [];
  }

  /** Continue a run with `b` from wherever the run of `a` ended. */
  function RunThen(o: Option<State>, b: string): Option<State> {
    match o
    case None => None
    case Some(st) => Run(b, st)
  }

  /** Running a concatenation runs the parts one after the other. */
  lemma {:induction false} RunAppend(a: string, b: string, st: State)
    ensures Run(a + b, st) == RunThen(Run(a, st), b)
  {
    if a == [] {
      assert a + b == b;
    } else {
      assert (a + b)[0] == a[0];
      assert (a + b)[1..] == a[1..] + b;
      match Step(st, a[0])
      case None =>
      case Some(next) => RunAppend(a[1..], b, next);
    }
  }
}
