/** The converse of the in-place theorem: a program that reads an input after
    its slot may have been overwritten computes something else. */
module ChannelNecessity {
  import opened ChannelConverter

  /** Output `j` alone takes channel `i`, and the slot of `i` is written first. */
  ghost predicate TooLate(c: Matrix, from: nat, to: nat, j: nat, i: nat) {
    && j < to && i < from && c(j, i) != 0.0 && Used(c, i, to) <= 1
    && if to > from then i > j else i < j
  }

  /** Silence, but for one sample of 1 on channel `i`. */
  function Click(size: nat, i: nat): seq<real> {
    seq(size, at => if at == i then 1.0 else 0.0)
  }

  lemma {:induction false} UsedAtLeast(c: Matrix, i: nat, j: nat, rows: nat)
    requires j < rows && c(j, i) != 0.0
    ensures Used(c, i, rows) >= 1
  {
    if j < rows - 1 {
      UsedAtLeast(c, i, j, rows - 1);
    }
  }

  lemma {:induction false} UsedTwice(c: Matrix, i: nat, j: nat, j': nat, rows: nat)
    requires j < j' < rows && c(j, i) != 0.0 && c(j', i) != 0.0
    ensures Used(c, i, rows) >= 2
  {
    if j' == rows - 1 {
      UsedAtLeast(c, i, j, rows - 1);
    } else {
      UsedTwice(c, i, j, j', rows - 1);
    }
  }

  lemma OnlyOneRow(c: Matrix, from: nat, to: nat, j: nat, i: nat)
    requires TooLate(c, from, to, j, i)
    ensures forall j': nat :: j' < to && j' != j ==> c(j', i) == 0.0
  {
    forall j': nat | j' < to && j' != j && c(j', i) != 0.0
      ensures false
    {
      if j < j' {
        UsedTwice(c, i, j, j', to);
      } else {
        UsedTwice(c, i, j', j, to);
      }
    }
  }

  lemma {:induction false} SumOfZeros(v: nat -> real, n: nat)
    requires forall i: nat :: i < n ==> v(i) == 0.0
    ensures SumTo(v, n) == 0.0
  {
    if n > 0 {
      SumOfZeros(v, n - 1);
    }
  }

  lemma {:induction false} ClickProduct(c: Matrix, j: nat, size: nat, i: nat, n: nat)
    requires i < size && n <= size
    ensures SumTo(Contributions(c, j, Click(size, i), 0), n) == if n <= i then 0.0 else c(j, i)
  {
    if n > 0 {
      ClickProduct(c, j, size, i, n - 1);
    }
  }

  /** All is silent, except that slot `i` may still hold its click. */
  ghost predicate Silent(r: seq<real>, i: nat, clicking: bool) {
    forall at :: 0 <= at < |r| ==> r[at] == 0.0 || (clicking && at == i)
  }

  ghost predicate SilentLocals(locals: Locals) {
    forall h :: h in locals ==> locals[h] == 0.0
  }

  lemma ClickLocals(c: Matrix, from: nat, to: nat, size: nat, i: nat)
    requires Used(c, i, to) <= 1
    ensures SilentLocals(LoadLocals(LocalsOf(c, to, from), Click(size, i), 0))
  {
    LocalsHold(c, to, from);
  }

  lemma SilentTerm(c: Matrix, to: nat, r: seq<real>, locals: Locals, i: nat, clicking: bool, j: nat, h: nat)
    requires Silent(r, i, clicking) && SilentLocals(locals)
    requires (clicking ==> c(j, i) == 0.0) && Used(c, i, to) <= 1
    ensures Sum(TermOf(c, to, j, h), Valued(r, locals, 0)) == 0.0
  {
    var t := TermOf(c, to, j, h);
    if t != [] {
      assert t[..0] == [];
      assert Sample(t[0].source, r, locals, 0) == 0.0;
      assert Sum(t, Valued(r, locals, 0)) == TermValue(t[0], r, locals, 0);
    }
  }

  lemma SilentRow(c: Matrix, from: nat, to: nat, r: seq<real>, locals: Locals, i: nat, clicking: bool, j: nat)
    requires Silent(r, i, clicking) && SilentLocals(locals)
    requires (clicking ==> c(j, i) == 0.0) && Used(c, i, to) <= 1
    ensures Sum(RowTerms(c, from, to, j, from), Valued(r, locals, 0)) == 0.0
  {
    var zero: nat -> real := _ => 0.0;
    forall h: nat | h < from
      ensures Sum(TermOf(c, to, j, h), Valued(r, locals, 0)) == zero(h)
    {
      SilentTerm(c, to, r, locals, i, clicking, j, h);
    }
    RowSum(c, from, to, j, Valued(r, locals, 0), zero, from);
    SumOfZeros(zero, from);
  }

  /** The assignment that writes output `j`. */
  function IndexOf(from: nat, to: nat, j: nat): (k: nat)
    requires j < to
    ensures k < to && Target(from, to, k) == j
  {
    if to > from then to - 1 - j else j
  }

  /** Before its row is summed up channel `i` has lost its click. */
  ghost predicate Losing(from: nat, to: nat, r: seq<real>, j: nat, i: nat, k: nat)
    requires j < to && i < to && j < |r|
  {
    if k <= IndexOf(from, to, j) then Silent(r, i, k <= IndexOf(from, to, i)) else r[j] == 0.0
  }

  lemma LosingStep(c: Matrix, from: nat, to: nat, r: seq<real>, locals: Locals, j: nat, i: nat, k: nat)
    requires TooLate(c, from, to, j, i) && SilentLocals(locals) && to <= |r| && k < to && i < to
    requires Losing(from, to, r, j, i, k)
    ensures var j' := Target(from, to, k);
            Losing(from, to, r[j' := Sum(RowTerms(c, from, to, j', from), Valued(r, locals, 0))], j, i, k + 1)
  {
    if k <= IndexOf(from, to, j) {
      OnlyOneRow(c, from, to, j, i);
      SilentRow(c, from, to, r, locals, i, k <= IndexOf(from, to, i), Target(from, to, k));
    }
  }

  lemma LosingNext(c: Matrix, from: nat, to: nat, r: seq<real>, r': seq<real>, locals: Locals, j: nat, i: nat, k: nat)
    requires TooLate(c, from, to, j, i) && SilentLocals(locals) && to <= |r| && 0 < k <= to && i < to
    requires var j' := Target(from, to, k - 1); r' == r[j' := Sum(RowTerms(c, from, to, j', from), Valued(r, locals, 0))]
    requires Losing(from, to, r, j, i, k - 1)
    ensures Losing(from, to, r', j, i, k)
  {
    LosingStep(c, from, to, r, locals, j, i, k - 1);
  }

  /** `Losing`, after the first `k` assignments of the program. */
  ghost predicate LosingAfter(c: Matrix, from: nat, to: nat, mem: seq<real>, locals: Locals, j: nat, i: nat, k: nat)
    requires j < to <= |mem| && i < to && k <= to
  {
    Losing(from, to, Execute(BodyOf(c, from, to, k), mem, locals, 0, 0), j, i, k)
  }

  lemma ClickStep(c: Matrix, from: nat, to: nat, mem: seq<real>, locals: Locals, j: nat, i: nat, k: nat)
    requires TooLate(c, from, to, j, i) && SilentLocals(locals) && to <= |mem| && 0 < k <= to && i < to
    requires LosingAfter(c, from, to, mem, locals, j, i, k - 1)
    ensures LosingAfter(c, from, to, mem, locals, j, i, k)
  {
    BodyLast(c, from, to, mem, locals, 0, 0, k);
    LosingNext(c, from, to, Execute(BodyOf(c, from, to, k - 1), mem, locals, 0, 0),
               Execute(BodyOf(c, from, to, k), mem, locals, 0, 0), locals, j, i, k);
  }

  lemma NothingLostYet(c: Matrix, from: nat, to: nat, mem: seq<real>, locals: Locals, j: nat, i: nat)
    requires j < to <= |mem| && i < to && Silent(mem, i, true)
    ensures LosingAfter(c, from, to, mem, locals, j, i, 0)
  {
    assert Execute(BodyOf(c, from, to, 0), mem, locals, 0, 0) == mem;
  }

  lemma {:induction false} ClickIsLost(c: Matrix, from: nat, to: nat, mem: seq<real>, locals: Locals, j: nat, i: nat, k: nat)
    requires TooLate(c, from, to, j, i) && SilentLocals(locals) && Silent(mem, i, true)
    requires to <= |mem| && k <= to && i < to
    ensures LosingAfter(c, from, to, mem, locals, j, i, k)
  {
    if k == 0 {
      NothingLostYet(c, from, to, mem, locals, j, i);
    } else {
      ClickIsLost(c, from, to, mem, locals, j, i, k - 1);
      ClickStep(c, from, to, mem, locals, j, i, k);
    }
  }

  /** Converting the frame at the start of `mem` in place is right. */
  ghost predicate RightInPlace(c: Matrix, from: nat, to: nat, mem: seq<real>)
    requires from <= |mem| && to <= |mem|
  {
    FrameConverted(c, from, to, mem, RunFrame(ProgramOf(c, from, to), mem, 0, 0), 0, 0)
  }

  lemma TooLateIsWrong(c: Matrix, from: nat, to: nat, j: nat, i: nat)
    requires from != to && TooLate(c, from, to, j, i)
    ensures !RightInPlace(c, from, to, Click(from + to, i))
  {
    var mem := Click(from + to, i);
    ClickLocals(c, from, to, from + to, i);
    ClickIsLost(c, from, to, mem, LoadLocals(LocalsOf(c, to, from), mem, 0), j, i, to);
    ClickProduct(c, j, from + to, i, from);
    assert Product(c, from, j, mem, 0) == c(j, i);
  }

  lemma SafeIsRight(c: Matrix, from: nat, to: nat, mem: seq<real>)
    requires Safe(c, from, to) && from <= |mem| && to <= |mem|
    ensures RightInPlace(c, from, to, mem)
  {
    FrameIsProduct(c, from, to, mem, 0, 0);
  }

  lemma UnsafeIsTooLate(c: Matrix, from: nat, to: nat) returns (j: nat, i: nat)
    requires !Safe(c, from, to)
    ensures TooLate(c, from, to, j, i)
  {
    j, i :| j < to && i < from && c(j, i) != 0.0 && Used(c, i, to) <= 1 && !(if to > from then i <= j else j <= i);
  }

  /** Converting in place is right on every buffer exactly when the matrix is safe. */
  lemma InPlaceIffSafe(c: Matrix, from: nat, to: nat)
    requires from != to
    ensures Safe(c, from, to) <==>
            forall mem: seq<real> :: from <= |mem| && to <= |mem| ==> RightInPlace(c, from, to, mem)
  {
    if Safe(c, from, to) {
      forall mem: seq<real> | from <= |mem| && to <= |mem|
        ensures RightInPlace(c, from, to, mem)
      {
        SafeIsRight(c, from, to, mem);
      }
    } else {
      var j, i := UnsafeIsTooLate(c, from, to);
      TooLateIsWrong(c, from, to, j, i);
      assert !RightInPlace(c, from, to, Click(from + to, i));
    }
  }
}
