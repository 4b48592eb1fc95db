/** The two instruction primitives: a run of pointer moves and a run of cell
    increments, each chosen by the sign of its count (bfpp.py `shft` and `inc`). */
module Primitives {
  import opened Code

  function Abs(n: int): nat {
    if n < 0 then -n else n
  }

  function Max0(n: int): nat {
    if n > 0 then n else 0
  }

  /** `n` moves right for n > 0, -n moves left for n < 0, nothing for 0. */
  function Shft(n: int): (r: string)
    ensures |r| == Abs(n)
    ensures forall i :: 0 <= i < |r| ==> r[i] == (if n > 0 then '>' else '<')
  {
    if n > 0 then Rep('>', n) else if n < 0 then Rep('<', -n) else ""
  }

  /** `n` increments for n > 0, -n decrements for n < 0, nothing for 0. */
  function Inc(n: int): (r: string)
    ensures |r| == Abs(n)
    ensures forall i :: 0 <= i < |r| ==> r[i] == (if n > 0 then '+' else '-')
  {
    if n > 0 then Rep('+', n) else if n < 0 then Rep('-', -n) else ""
  }

  /** `Shft(n)` holds Max0(n) `>`, Max0(-n) `<` and nothing else, so its
      displacement is n and it changes no cell. */
  lemma ShftCounts(n: int)
    ensures Count(Shft(n), '>') == Max0(n) && Count(Shft(n), '<') == Max0(-n)
    ensures Count(Shft(n), '+') == 0 && Count(Shft(n), '-') == 0
    ensures Disp(Shft(n)) == n && Delta(Shft(n)) == 0
    ensures Flat(Shft(n)) && IsCode(Shft(n))
  {
    var c := if n > 0 then '>' else '<';
    CountRep(c, Abs(n), '>');
    CountRep(c, Abs(n), '<');
    CountRep(c, Abs(n), '+');
    CountRep(c, Abs(n), '-');
  }

  /** `Inc(n)` holds Max0(n) `+`, Max0(-n) `-` and nothing else, so its delta is
      n and it does not move the pointer. */
  lemma IncCounts(n: int)
    ensures Count(Inc(n), '+') == Max0(n) && Count(Inc(n), '-') == Max0(-n)
    ensures Count(Inc(n), '>') == 0 && Count(Inc(n), '<') == 0 && Count(Inc(n), '.') == 0
    ensures Delta(Inc(n)) == n && Disp(Inc(n)) == 0
    ensures Flat(Inc(n)) && IsCode(Inc(n))
  {
    var c := if n > 0 then '+' else '-';
    CountRep(c, Abs(n), '>');
    CountRep(c, Abs(n), '<');
    CountRep(c, Abs(n), '+');
    CountRep(c, Abs(n), '-');
    CountRep(c, Abs(n), '.');
  }

  /** A shift followed by the opposite shift is pointer-neutral and loop-free. */
  lemma ShftCancel(n: int)
    ensures Disp(Shft(n) + Shft(-n)) == 0 && Delta(Shft(n) + Shft(-n)) == 0
    ensures PointerSafe(Shft(n) + Shft(-n))
  {
    ShftCounts(n);
    ShftCounts(-n);
    CountsAppend(Shft(n), Shft(-n));
    IsCodeAppend(Shft(n), Shft(-n));
    SafeFlat(Shft(n) + Shft(-n));
  }

  /** An increment followed by the opposite increment nets to zero and does not
      move the pointer. */
  lemma IncCancel(n: int)
    ensures Delta(Inc(n) + Inc(-n)) == 0 && Disp(Inc(n) + Inc(-n)) == 0
    ensures PointerSafe(Inc(n) + Inc(-n))
  {
    IncCounts(n);
    IncCounts(-n);
    CountsAppend(Inc(n), Inc(-n));
    IsCodeAppend(Inc(n), Inc(-n));
    SafeFlat(Inc(n) + Inc(-n));
  }
}
