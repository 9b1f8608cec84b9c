/** gen_audio_channel_conversion.c: a small compiler from a coefficient matrix
    to a loop that converts audio frames, and the machine that runs the loop. */
module ChannelConverter {
  import opened Arithmetic

  // ----- matrices -----

  /** `c(j, i)` is the coefficient from input channel `i` to output channel `j`. */
  type Matrix = (nat, nat) -> real

  /** The coefficients as the tables hold them, row after row; a table is zero
      beyond the coefficients that are written down. */
  function Flat(m: seq<real>, from: nat): Matrix {
    (j, i) => if 0 <= j * from + i < |m| then m[j * from + i] else 0.0
  }

  function SumTo(v: nat -> real, n: nat): real {
    if n == 0 then 0.0 else SumTo(v, n - 1) + v(n - 1)
  }

  /** What input channel `i` of the frame at `at` contributes to output channel `j`. */
  function Contribution(c: Matrix, j: nat, mem: seq<real>, at: nat, i: nat): real {
    if at + i < |mem| then mem[at + i] * c(j, i) else 0.0
  }

  function Contributions(c: Matrix, j: nat, mem: seq<real>, at: nat): nat -> real {
    (i: nat) => Contribution(c, j, mem, at, i)
  }

  /** The exact result: row `j` of the matrix times the input frame at `at`. */
  function Product(c: Matrix, from: nat, j: nat, mem: seq<real>, at: nat): real {
    SumTo(Contributions(c, j, mem, at), from)
  }

  /** How many of the first `rows` output channels take input channel `i`. */
  function Used(c: Matrix, i: nat, rows: nat): nat {
    if rows == 0 then 0 else Used(c, i, rows - 1) + if c(rows - 1, i) != 0.0 then 1 else 0
  }

  // ----- generated programs -----

  /** A sample is read from a local made at the start of the frame, or from the
      source buffer. */
  datatype Source = Local(channel: nat) | Direct(channel: nat)
  datatype Term = Term(source: Source, coefficient: real)
  datatype Assignment = Assignment(target: nat, terms: seq<Term>)
  datatype Program = Program(from: nat, to: nat, backwards: bool, locals: seq<nat>, body: seq<Assignment>)

  function TermOf(c: Matrix, to: nat, j: nat, i: nat): seq<Term> {
    if c(j, i) == 0.0 then [] else [Term(if Used(c, i, to) > 1 then Local(i) else Direct(i), c(j, i))]
  }

  /** The terms for the first `n` input channels, in the order they are written. */
  function RowTerms(c: Matrix, from: nat, to: nat, j: nat, n: nat): seq<Term> {
    if n == 0 then []
    else if to > from then TermOf(c, to, j, n - 1) + RowTerms(c, from, to, j, n - 1)
    else RowTerms(c, from, to, j, n - 1) + TermOf(c, to, j, n - 1)
  }

  function LocalsOf(c: Matrix, to: nat, n: nat): seq<nat> {
    if n == 0 then []
    else LocalsOf(c, to, n - 1) + if Used(c, n - 1, to) > 1 then [n - 1] else []
  }

  /** The output channel of the `k`th assignment. */
  function Target(from: nat, to: nat, k: nat): nat
    requires k < to
  {
    if to > from then to - 1 - k else k
  }

  function BodyOf(c: Matrix, from: nat, to: nat, k: nat): (body: seq<Assignment>)
    requires k <= to
    ensures |body| == k
  {
    if k == 0 then []
    else
      var j := Target(from, to, k - 1);
      BodyOf(c, from, to, k - 1) + [Assignment(j, RowTerms(c, from, to, j, from))]
  }

  function ProgramOf(c: Matrix, from: nat, to: nat): Program {
    Program(from, to, to > from, LocalsOf(c, to, from), BodyOf(c, from, to, to))
  }

  /** The counting loops of `write_converter`, with their moving pointer. */
  method CountUses(m: seq<real>, from: nat, to: nat) returns (used: seq<nat>)
    ensures |used| == from && forall i :: 0 <= i < from ==> used[i] == Used(Flat(m, from), i, to)
  {
    ghost var c := Flat(m, from);
    used := seq(from, _ => 0);
    var fptr := 0;
    var j := 0;
    while j < to
      invariant 0 <= j <= to && fptr == j * from && |used| == from
      invariant forall i :: 0 <= i < from ==> used[i] == Used(c, i, j)
    {
      var i := 0;
      while i < from
        invariant 0 <= i <= from && fptr == j * from + i && |used| == from
        invariant forall h :: 0 <= h < i ==> used[h] == Used(c, h, j + 1)
        invariant forall h :: i <= h < from ==> used[h] == Used(c, h, j)
      {
        var coefficient := if fptr < |m| then m[fptr] else 0.0;
        assert coefficient == c(j, i);
        fptr := fptr + 1;
        if coefficient != 0.0 {
          used := used[i := used[i] + 1];
        }
        i := i + 1;
      }
      assert (j + 1) * from == j * from + from;
      j := j + 1;
    }
  }

  /** One assignment of a growing conversion: the last channel comes first. */
  method WriteRowDown(c: Matrix, from: nat, to: nat, used: seq<nat>, j: nat) returns (terms: seq<Term>)
    requires to > from
    requires |used| == from && forall i :: 0 <= i < from ==> used[i] == Used(c, i, to)
    ensures terms == RowTerms(c, from, to, j, from)
  {
    terms := [];
    var i := from;
    while i > 0
      invariant 0 <= i <= from && terms + RowTerms(c, from, to, j, i) == RowTerms(c, from, to, j, from)
    {
      i := i - 1;
      ghost var rest := RowTerms(c, from, to, j, i);
      assert (terms + TermOf(c, to, j, i)) + rest == terms + (TermOf(c, to, j, i) + rest);
      if c(j, i) != 0.0 {
        terms := terms + [Term(if used[i] > 1 then Local(i) else Direct(i), c(j, i))];
      } else {
        assert terms + TermOf(c, to, j, i) == terms;
      }
    }
    assert terms + RowTerms(c, from, to, j, 0) == terms;
  }

  /** One assignment of a shrinking conversion. */
  method WriteRowUp(c: Matrix, from: nat, to: nat, used: seq<nat>, j: nat) returns (terms: seq<Term>)
    requires to <= from
    requires |used| == from && forall i :: 0 <= i < from ==> used[i] == Used(c, i, to)
    ensures terms == RowTerms(c, from, to, j, from)
  {
    terms := [];
    var i := 0;
    while i < from
      invariant 0 <= i <= from && terms == RowTerms(c, from, to, j, i)
    {
      if c(j, i) != 0.0 {
        terms := terms + [Term(if used[i] > 1 then Local(i) else Direct(i), c(j, i))];
      }
      i := i + 1;
    }
  }

  method WriteLocals(c: Matrix, from: nat, to: nat, used: seq<nat>) returns (locals: seq<nat>)
    requires |used| == from && forall i :: 0 <= i < from ==> used[i] == Used(c, i, to)
    ensures locals == LocalsOf(c, to, from)
  {
    locals := [];
    var i := 0;
    while i < from
      invariant 0 <= i <= from && locals == LocalsOf(c, to, i)
    {
      if used[i] > 1 {
        locals := locals + [i];
      }
      i := i + 1;
    }
  }

  method WriteBodyDown(c: Matrix, from: nat, to: nat, used: seq<nat>) returns (body: seq<Assignment>)
    requires to > from && |used| == from && forall i :: 0 <= i < from ==> used[i] == Used(c, i, to)
    ensures body == BodyOf(c, from, to, to)
  {
    body := [];
    var j: int := to - 1;
    while j >= 0
      invariant -1 <= j < to && body == BodyOf(c, from, to, to - 1 - j)
    {
      var terms := WriteRowDown(c, from, to, used, j);
      body := body + [Assignment(j, terms)];
      j := j - 1;
    }
  }

  method WriteBodyUp(c: Matrix, from: nat, to: nat, used: seq<nat>) returns (body: seq<Assignment>)
    requires to <= from && |used| == from && forall i :: 0 <= i < from ==> used[i] == Used(c, i, to)
    ensures body == BodyOf(c, from, to, to)
  {
    body := [];
    var j: nat := 0;
    while j < to
      invariant j <= to && body == BodyOf(c, from, to, j)
    {
      var terms := WriteRowUp(c, from, to, used, j);
      body := body + [Assignment(j, terms)];
      j := j + 1;
    }
  }

  /** `write_converter`; nothing is written for equal channel counts. */
  method WriteConverter(m: seq<real>, from: nat, to: nat) returns (written: bool, p: Program)
    ensures written <==> from != to
    ensures written ==> p == ProgramOf(Flat(m, from), from, to)
  {
    if from == to {
      return false, Program(from, to, false, [], []);
    }
    var c := Flat(m, from);
    var used := CountUses(m, from, to);
    var locals := WriteLocals(c, from, to, used);
    var body: seq<Assignment>;
    if to > from {
      body := WriteBodyDown(c, from, to, used);
    } else {
      body := WriteBodyUp(c, from, to, used);
    }
    return true, Program(from, to, to > from, locals, body);
  }

  // ----- running a program on one frame -----

  type Locals = map<nat, real>

  function Sample(s: Source, mem: seq<real>, locals: Locals, src: nat): real {
    match s
    case Local(i) => if i in locals then locals[i] else 0.0
    case Direct(i) => if src + i < |mem| then mem[src + i] else 0.0
  }

  function TermValue(t: Term, mem: seq<real>, locals: Locals, src: nat): real {
    var x := Sample(t.source, mem, locals, src);
    if t.coefficient == 1.0 then x else x * t.coefficient
  }

  type Valuation = Term -> real

  function Valued(mem: seq<real>, locals: Locals, src: nat): Valuation {
    t => TermValue(t, mem, locals, src)
  }

  function Sum(terms: seq<Term>, value: Valuation): real {
    if terms == [] then 0.0 else Sum(terms[..|terms| - 1], value) + value(terms[|terms| - 1])
  }

  /** The memory after the assignments, made one by one. */
  function Execute(body: seq<Assignment>, mem: seq<real>, locals: Locals, src: nat, dst: nat): (r: seq<real>)
    ensures |r| == |mem|
  {
    if body == [] then mem
    else
      var last := body[|body| - 1];
      var r := Execute(body[..|body| - 1], mem, locals, src, dst);
      if dst + last.target < |r| then r[dst + last.target := Sum(last.terms, Valued(r, locals, src))] else r
  }

  function LoadLocals(channels: seq<nat>, mem: seq<real>, src: nat): Locals {
    map i | i in channels && src + i < |mem| :: mem[src + i]
  }

  function RunFrame(p: Program, mem: seq<real>, src: nat, dst: nat): seq<real> {
    Execute(p.body, mem, LoadLocals(p.locals, mem, src), src, dst)
  }

  // ----- when that is the matrix product -----

  /** Every input channel that is read straight from the buffer, because only
      one output takes it, is read before its own slot can be overwritten. */
  ghost predicate Safe(c: Matrix, from: nat, to: nat) {
    forall j: nat, i: nat :: j < to && i < from && c(j, i) != 0.0 && Used(c, i, to) <= 1 ==>
      if to > from then i <= j else j <= i
  }

  /** Where the frame is read and where it is written: in place as the loop
      comes to it, or somewhere else. */
  ghost predicate Placed(from: nat, to: nat, src: nat, dst: nat) {
    if to > from then src <= dst else dst <= src
  }

  ghost predicate Apart(from: nat, to: nat, src: nat, dst: nat) {
    src + from <= dst || dst + to <= src
  }

  lemma {:induction false} SumConcat(a: seq<Term>, b: seq<Term>, value: Valuation)
    ensures Sum(a + b, value) == Sum(a, value) + Sum(b, value)
  {
    if b == [] {
      assert a + b == a;
    } else {
      assert (a + b)[..|a + b| - 1] == a + b[..|b| - 1];
      SumConcat(a, b[..|b| - 1], value);
    }
  }

  /** Row `j`'s sum is that of its terms' contributions, in whichever order it
      is written and whatever the terms that are left out. */
  lemma {:induction false} RowSum(c: Matrix, from: nat, to: nat, j: nat, value: Valuation, v: nat -> real, n: nat)
    requires forall i: nat :: i < n ==> Sum(TermOf(c, to, j, i), value) == v(i)
    ensures Sum(RowTerms(c, from, to, j, n), value) == SumTo(v, n)
  {
    if n > 0 {
      var t, rest := TermOf(c, to, j, n - 1), RowTerms(c, from, to, j, n - 1);
      RowSum(c, from, to, j, value, v, n - 1);
      SumConcat(t, rest, value);
      SumConcat(rest, t, value);
    }
  }

  lemma {:induction false} LocalsHold(c: Matrix, to: nat, n: nat)
    ensures forall i: nat :: i in LocalsOf(c, to, n) <==> i < n && Used(c, i, to) > 1
  {
    if n > 0 {
      LocalsHold(c, to, n - 1);
    }
  }

  /** Each term of row `j` reads what the frame held before it was touched. */
  ghost predicate ReadsIntact(c: Matrix, from: nat, to: nat, j: nat, mem0: seq<real>, mem: seq<real>, src: nat) {
    && |mem| == |mem0| && src + from <= |mem|
    && forall i :: 0 <= i < from && c(j, i) != 0.0 && Used(c, i, to) <= 1 ==>
         mem[src + i] == mem0[src + i]
  }

  ghost predicate LocalsIntact(c: Matrix, from: nat, to: nat, locals: Locals, mem0: seq<real>, src: nat)
    requires src + from <= |mem0|
  {
    forall i: nat :: i < from && Used(c, i, to) > 1 ==> i in locals && locals[i] == mem0[src + i]
  }

  lemma LoadedIntact(c: Matrix, from: nat, to: nat, mem0: seq<real>, src: nat)
    requires src + from <= |mem0|
    ensures LocalsIntact(c, from, to, LoadLocals(LocalsOf(c, to, from), mem0, src), mem0, src)
  {
    LocalsHold(c, to, from);
  }

  lemma TermIsContribution(c: Matrix, from: nat, to: nat, j: nat, mem0: seq<real>, mem: seq<real>, locals: Locals, src: nat, i: nat)
    requires i < from && ReadsIntact(c, from, to, j, mem0, mem, src) && LocalsIntact(c, from, to, locals, mem0, src)
    ensures Sum(TermOf(c, to, j, i), Valued(mem, locals, src)) == Contribution(c, j, mem0, src, i)
  {
    var t := TermOf(c, to, j, i);
    if t != [] {
      assert t[..0] == [];
      assert Sum(t, Valued(mem, locals, src)) == TermValue(t[0], mem, locals, src);
    }
  }

  lemma RowIsProduct(c: Matrix, from: nat, to: nat, j: nat, mem0: seq<real>, mem: seq<real>, locals: Locals, src: nat)
    requires ReadsIntact(c, from, to, j, mem0, mem, src) && LocalsIntact(c, from, to, locals, mem0, src)
    ensures Sum(RowTerms(c, from, to, j, from), Valued(mem, locals, src)) == Product(c, from, j, mem0, src)
  {
    var v := Contributions(c, j, mem0, src);
    forall i: nat | i < from
      ensures Sum(TermOf(c, to, j, i), Valued(mem, locals, src)) == v(i)
    {
      TermIsContribution(c, from, to, j, mem0, mem, locals, src, i);
    }
    RowSum(c, from, to, j, Valued(mem, locals, src), v, from);
  }

  /** Slot `at` has been written by the first `k` assignments. */
  predicate Written(from: nat, to: nat, dst: nat, k: nat, at: nat)
    requires k <= to
  {
    if to > from then dst + to - k <= at < dst + to else dst <= at < dst + k
  }

  /** What the first `k` assignments have done to the memory `mem`. */
  ghost predicate PartlyConverted(c: Matrix, from: nat, to: nat, mem: seq<real>, r: seq<real>, src: nat, dst: nat, k: nat)
    requires k <= to && src + from <= |mem| && dst + to <= |mem| == |r|
  {
    && (forall at :: 0 <= at < |mem| && !Written(from, to, dst, k, at) ==> r[at] == mem[at])
    && (forall j :: 0 <= j < to && Written(from, to, dst, k, dst + j) ==> r[dst + j] == Product(c, from, j, mem, src))
  }

  ghost predicate MayConvert(c: Matrix, from: nat, to: nat, src: nat, dst: nat) {
    (Placed(from, to, src, dst) && Safe(c, from, to)) || Apart(from, to, src, dst)
  }

  /** No source sample that the next assignment reads has been overwritten. */
  lemma NextReadsIntact(c: Matrix, from: nat, to: nat, mem: seq<real>, r: seq<real>, src: nat, dst: nat, k: nat)
    requires k < to && src + from <= |mem| && dst + to <= |mem| == |r|
    requires MayConvert(c, from, to, src, dst) && PartlyConverted(c, from, to, mem, r, src, dst, k)
    ensures ReadsIntact(c, from, to, Target(from, to, k), mem, r, src)
  {
  }

  lemma ExecuteLast(body: seq<Assignment>, j: nat, terms: seq<Term>, mem: seq<real>, locals: Locals, src: nat, dst: nat)
    requires dst + j < |mem|
    ensures var r := Execute(body, mem, locals, src, dst);
            Execute(body + [Assignment(j, terms)], mem, locals, src, dst) ==
            r[dst + j := Sum(terms, Valued(r, locals, src))]
  {
    var all := body + [Assignment(j, terms)];
    assert all[..|all| - 1] == body;
  }

  lemma OneMoreConverted(c: Matrix, from: nat, to: nat, mem: seq<real>, r: seq<real>, src: nat, dst: nat, k: nat)
    requires k < to && src + from <= |mem| && dst + to <= |mem| == |r|
    requires PartlyConverted(c, from, to, mem, r, src, dst, k)
    ensures var j := Target(from, to, k);
            PartlyConverted(c, from, to, mem, r[dst + j := Product(c, from, j, mem, src)], src, dst, k + 1)
  {
  }

  /** One assignment, on memory `r` that has been partly converted. */
  lemma AssignmentConverts(c: Matrix, from: nat, to: nat, mem: seq<real>, r: seq<real>, locals: Locals, src: nat, dst: nat, k: nat)
    requires 0 < k <= to && src + from <= |mem| && dst + to <= |mem| == |r|
    requires MayConvert(c, from, to, src, dst) && LocalsIntact(c, from, to, locals, mem, src)
    requires PartlyConverted(c, from, to, mem, r, src, dst, k - 1)
    ensures var j := Target(from, to, k - 1);
            PartlyConverted(c, from, to, mem, r[dst + j := Sum(RowTerms(c, from, to, j, from), Valued(r, locals, src))], src, dst, k)
  {
    NextReadsIntact(c, from, to, mem, r, src, dst, k - 1);
    RowIsProduct(c, from, to, Target(from, to, k - 1), mem, r, locals, src);
    OneMoreConverted(c, from, to, mem, r, src, dst, k - 1);
  }

  lemma BodyLast(c: Matrix, from: nat, to: nat, mem: seq<real>, locals: Locals, src: nat, dst: nat, k: nat)
    requires 0 < k <= to && dst + to <= |mem|
    ensures var r, j := Execute(BodyOf(c, from, to, k - 1), mem, locals, src, dst), Target(from, to, k - 1);
            Execute(BodyOf(c, from, to, k), mem, locals, src, dst) ==
            r[dst + j := Sum(RowTerms(c, from, to, j, from), Valued(r, locals, src))]
  {
    var j := Target(from, to, k - 1);
    ExecuteLast(BodyOf(c, from, to, k - 1), j, RowTerms(c, from, to, j, from), mem, locals, src, dst);
  }

  lemma BodyStep(c: Matrix, from: nat, to: nat, mem: seq<real>, r: seq<real>, r': seq<real>, locals: Locals, src: nat, dst: nat, k: nat)
    requires 0 < k <= to && src + from <= |mem| && dst + to <= |mem|
    requires MayConvert(c, from, to, src, dst) && LocalsIntact(c, from, to, locals, mem, src)
    requires r == Execute(BodyOf(c, from, to, k - 1), mem, locals, src, dst)
    requires r' == Execute(BodyOf(c, from, to, k), mem, locals, src, dst)
    requires PartlyConverted(c, from, to, mem, r, src, dst, k - 1)
    ensures PartlyConverted(c, from, to, mem, r', src, dst, k)
  {
    BodyLast(c, from, to, mem, locals, src, dst, k);
    AssignmentConverts(c, from, to, mem, r, locals, src, dst, k);
  }

  lemma NothingConverted(c: Matrix, from: nat, to: nat, mem: seq<real>, src: nat, dst: nat)
    requires src + from <= |mem| && dst + to <= |mem|
    ensures PartlyConverted(c, from, to, mem, mem, src, dst, 0)
  {
  }

  lemma {:induction false} BodyIsProduct(c: Matrix, from: nat, to: nat, mem: seq<real>, locals: Locals, src: nat, dst: nat, k: nat)
    requires k <= to && src + from <= |mem| && dst + to <= |mem|
    requires MayConvert(c, from, to, src, dst) && LocalsIntact(c, from, to, locals, mem, src)
    ensures PartlyConverted(c, from, to, mem, Execute(BodyOf(c, from, to, k), mem, locals, src, dst), src, dst, k)
  {
    if k == 0 {
      NothingConverted(c, from, to, mem, src, dst);
      assert Execute(BodyOf(c, from, to, 0), mem, locals, src, dst) == mem;
    } else {
      BodyIsProduct(c, from, to, mem, locals, src, dst, k - 1);
      var r := Execute(BodyOf(c, from, to, k - 1), mem, locals, src, dst);
      BodyStep(c, from, to, mem, r, Execute(BodyOf(c, from, to, k), mem, locals, src, dst), locals, src, dst, k);
    }
  }

  /** `r` holds at `dst` the product of the frame that `mem` holds at `src`. */
  ghost predicate FrameConverted(c: Matrix, from: nat, to: nat, mem: seq<real>, r: seq<real>, src: nat, dst: nat)
    requires src + from <= |mem| && dst + to <= |r|
  {
    forall j: nat :: j < to ==> r[dst + j] == Product(c, from, j, mem, src)
  }

  ghost predicate Outside(mem: seq<real>, r: seq<real>, lo: int, hi: int) {
    |mem| == |r| && forall at :: 0 <= at < |mem| && !(lo <= at < hi) ==> r[at] == mem[at]
  }

  /** One frame of the generated loop is the matrix product. */
  lemma FrameIsProduct(c: Matrix, from: nat, to: nat, mem: seq<real>, src: nat, dst: nat)
    requires src + from <= |mem| && dst + to <= |mem| && MayConvert(c, from, to, src, dst)
    ensures var r := RunFrame(ProgramOf(c, from, to), mem, src, dst);
            FrameConverted(c, from, to, mem, r, src, dst) && Outside(mem, r, dst, dst + to)
  {
    LoadedIntact(c, from, to, mem, src);
    BodyIsProduct(c, from, to, mem, LoadLocals(LocalsOf(c, to, from), mem, src), src, dst, to);
  }

  // ----- running a program on a buffer -----

  /** Where frame `f` of `width` samples starts. */
  function At(base: nat, f: nat, width: nat): (r: nat)
    ensures r >= base
  {
    if f == 0 then base else At(base, f - 1, width) + width
  }

  lemma {:induction false} AtIsProduct(base: nat, f: nat, width: nat)
    ensures At(base, f, width) == base + f * width
  {
    if f > 0 {
      AtIsProduct(base, f - 1, width);
      Distribute(width, f, -1);
    }
  }

  lemma {:induction false} AtOrder(base: nat, f: nat, g: nat, width: nat)
    requires f < g
    ensures At(base, f, width) + width <= At(base, g, width)
  {
    if f + 1 < g {
      AtOrder(base, f, g - 1, width);
    }
  }

  lemma {:induction false} AtWider(base: nat, f: nat, narrow: nat, wide: nat)
    requires narrow <= wide
    ensures At(base, f, narrow) <= At(base, f, wide)
  {
    if f > 0 {
      AtWider(base, f - 1, narrow, wide);
    }
  }

  /** The two buffers are one, or they do not overlap. */
  ghost predicate Buffers(c: Matrix, from: nat, to: nat, src0: nat, dst0: nat, frames: nat) {
    || (src0 == dst0 && Safe(c, from, to))
    || At(src0, frames, from) <= dst0 || At(dst0, frames, to) <= src0
  }

  /** A frame's product depends on that frame's samples alone. */
  lemma {:induction false} SameSum(c: Matrix, j: nat, mem: seq<real>, mem': seq<real>, at: nat, n: nat)
    requires at + n <= |mem| == |mem'| && forall p :: at <= p < at + n ==> mem[p] == mem'[p]
    ensures SumTo(Contributions(c, j, mem, at), n) == SumTo(Contributions(c, j, mem', at), n)
  {
    if n > 0 {
      SameSum(c, j, mem, mem', at, n - 1);
    }
  }

  lemma SameProducts(c: Matrix, from: nat, to: nat, mem: seq<real>, mem': seq<real>, r: seq<real>, src: nat, dst: nat)
    requires src + from <= |mem| == |mem'| && dst + to <= |r|
    requires forall p :: src <= p < src + from ==> mem[p] == mem'[p]
    requires FrameConverted(c, from, to, mem', r, src, dst)
    ensures FrameConverted(c, from, to, mem, r, src, dst)
  {
    forall j: nat | j < to
      ensures r[dst + j] == Product(c, from, j, mem, src)
    {
      SameSum(c, j, mem, mem', src, from);
      assert r[dst + j] == Product(c, from, j, mem', src);
    }
  }

  /** A growing conversion comes to frame `f` with the frames after it done. */
  lemma EarlierFrameIntact(c: Matrix, from: nat, to: nat, src0: nat, dst0: nat, frames: nat, mem: seq<real>, r: seq<real>, f: nat)
    requires from < to && Buffers(c, from, to, src0, dst0, frames) && f < frames
    requires At(src0, frames, from) <= |mem| && At(dst0, frames, to) <= |mem|
    requires Outside(mem, r, At(dst0, f + 1, to), At(dst0, frames, to))
    ensures FrameIntact(c, from, to, mem, r, At(src0, f, from), At(dst0, f, to))
  {
    AtOrder(src0, f, frames, from);
    AtOrder(dst0, f, frames, to);
    AtWider(src0, f, from, to);
  }

  /** A shrinking conversion comes to frame `f` with the frames before it done. */
  lemma LaterFrameIntact(c: Matrix, from: nat, to: nat, src0: nat, dst0: nat, frames: nat, mem: seq<real>, r: seq<real>, f: nat)
    requires from > to && Buffers(c, from, to, src0, dst0, frames) && f < frames
    requires At(src0, frames, from) <= |mem| && At(dst0, frames, to) <= |mem|
    requires Outside(mem, r, dst0, At(dst0, f, to))
    ensures FrameIntact(c, from, to, mem, r, At(src0, f, from), At(dst0, f, to))
  {
    AtOrder(src0, f, frames, from);
    AtOrder(dst0, f, frames, to);
    AtWider(src0, f, to, from);
  }

  /** The frame at `src` holds what it held at the start, and may be converted. */
  ghost predicate FrameIntact(c: Matrix, from: nat, to: nat, mem: seq<real>, r: seq<real>, src: nat, dst: nat) {
    && src + from <= |mem| == |r| && dst + to <= |mem| && MayConvert(c, from, to, src, dst)
    && forall p :: src <= p < src + from ==> mem[p] == r[p]
  }

  lemma ConvertedFrame(c: Matrix, from: nat, to: nat, mem: seq<real>, r: seq<real>, src: nat, dst: nat)
    requires FrameIntact(c, from, to, mem, r, src, dst)
    ensures var r' := RunFrame(ProgramOf(c, from, to), r, src, dst);
            FrameConverted(c, from, to, mem, r', src, dst) && Outside(r, r', dst, dst + to)
  {
    FrameIsProduct(c, from, to, r, src, dst);
    SameProducts(c, from, to, mem, r, RunFrame(ProgramOf(c, from, to), r, src, dst), src, dst);
  }

  /** Frame `f` of `r` is the product of frame `f` of `mem`. */
  ghost predicate FrameDone(c: Matrix, from: nat, to: nat, src0: nat, dst0: nat, mem: seq<real>, r: seq<real>, f: nat) {
    && At(src0, f, from) + from <= |mem| && At(dst0, f, to) + to <= |r|
    && FrameConverted(c, from, to, mem, r, At(src0, f, from), At(dst0, f, to))
  }

  /** Frames `a` to `b` have been converted, and nothing else touched. */
  ghost predicate Converted(c: Matrix, from: nat, to: nat, src0: nat, dst0: nat, mem: seq<real>, r: seq<real>, a: nat, b: nat)
  {
    && Outside(mem, r, At(dst0, a, to), At(dst0, b, to))
    && forall f: nat :: a <= f < b ==> FrameDone(c, from, to, src0, dst0, mem, r, f)
  }

  /** Writing frame `f` leaves the other frames' results alone. */
  lemma KeepsFrame(c: Matrix, from: nat, to: nat, src0: nat, dst0: nat, mem: seq<real>, r: seq<real>, r': seq<real>, g: nat, f: nat)
    requires FrameDone(c, from, to, src0, dst0, mem, r, g) && f != g
    requires Outside(r, r', At(dst0, f, to), At(dst0, f, to) + to)
    ensures FrameDone(c, from, to, src0, dst0, mem, r', g)
  {
    if f < g {
      AtOrder(dst0, f, g, to);
    } else {
      AtOrder(dst0, g, f, to);
    }
  }

  lemma KeepsFrames(c: Matrix, from: nat, to: nat, src0: nat, dst0: nat, mem: seq<real>, r: seq<real>, r': seq<real>, a: nat, b: nat, f: nat)
    requires forall g: nat :: a <= g < b ==> FrameDone(c, from, to, src0, dst0, mem, r, g)
    requires FrameDone(c, from, to, src0, dst0, mem, r', f) && (f < a || b <= f)
    requires Outside(r, r', At(dst0, f, to), At(dst0, f, to) + to)
    ensures forall g: nat :: a <= g < b || g == f ==> FrameDone(c, from, to, src0, dst0, mem, r', g)
  {
    forall g: nat | a <= g < b
      ensures FrameDone(c, from, to, src0, dst0, mem, r', g)
    {
      KeepsFrame(c, from, to, src0, dst0, mem, r, r', g, f);
    }
  }

  lemma OutsideBoth(mem: seq<real>, r: seq<real>, r': seq<real>, lo: int, mid: int, hi: int)
    requires lo <= mid <= hi
    requires (Outside(mem, r, lo, mid) && Outside(r, r', mid, hi)) || (Outside(mem, r, mid, hi) && Outside(r, r', lo, mid))
    ensures Outside(mem, r', lo, hi)
  {
  }

  lemma OneEarlierFrame(c: Matrix, from: nat, to: nat, src0: nat, dst0: nat, frames: nat, mem: seq<real>, r: seq<real>, f: nat)
    requires from < to && Buffers(c, from, to, src0, dst0, frames) && f < frames
    requires At(src0, frames, from) <= |mem| && At(dst0, frames, to) <= |mem|
    requires Converted(c, from, to, src0, dst0, mem, r, f + 1, frames)
    ensures var r' := RunFrame(ProgramOf(c, from, to), r, At(src0, f, from), At(dst0, f, to));
            Converted(c, from, to, src0, dst0, mem, r', f, frames)
  {
    var dst := At(dst0, f, to);
    var r' := RunFrame(ProgramOf(c, from, to), r, At(src0, f, from), dst);
    EarlierFrameIntact(c, from, to, src0, dst0, frames, mem, r, f);
    ConvertedFrame(c, from, to, mem, r, At(src0, f, from), dst);
    KeepsFrames(c, from, to, src0, dst0, mem, r, r', f + 1, frames, f);
    AtOrder(dst0, f, frames, to);
    OutsideBoth(mem, r, r', dst, dst + to, At(dst0, frames, to));
  }

  lemma OneLaterFrame(c: Matrix, from: nat, to: nat, src0: nat, dst0: nat, frames: nat, mem: seq<real>, r: seq<real>, f: nat)
    requires from > to && Buffers(c, from, to, src0, dst0, frames) && f < frames
    requires At(src0, frames, from) <= |mem| && At(dst0, frames, to) <= |mem|
    requires Converted(c, from, to, src0, dst0, mem, r, 0, f)
    ensures var r' := RunFrame(ProgramOf(c, from, to), r, At(src0, f, from), At(dst0, f, to));
            Converted(c, from, to, src0, dst0, mem, r', 0, f + 1)
  {
    var dst := At(dst0, f, to);
    var r' := RunFrame(ProgramOf(c, from, to), r, At(src0, f, from), dst);
    LaterFrameIntact(c, from, to, src0, dst0, frames, mem, r, f);
    ConvertedFrame(c, from, to, mem, r, At(src0, f, from), dst);
    KeepsFrames(c, from, to, src0, dst0, mem, r, r', 0, f, f);
    OutsideBoth(mem, r, r', dst0, dst, dst + to);
  }

  method LoadAll(mem: array<real>, channels: seq<nat>, src: nat) returns (locals: Locals)
    ensures locals == LoadLocals(channels, mem[..], src)
  {
    locals := map i | i in channels && src + i < mem.Length :: mem[src + i];
  }

  /** One frame of the emitted loop: the locals, then the assignments in order. */
  method ConvertFrame(mem: array<real>, p: Program, src: nat, dst: nat)
    modifies mem
    ensures mem[..] == RunFrame(p, old(mem[..]), src, dst)
  {
    var locals := LoadAll(mem, p.locals, src);
    var k := 0;
    assert p.body[..0] == [];
    while k < |p.body|
      invariant 0 <= k <= |p.body| && mem[..] == Execute(p.body[..k], old(mem[..]), locals, src, dst)
    {
      assert p.body[..k + 1][..k] == p.body[..k];
      ghost var r := mem[..];
      if dst + p.body[k].target < mem.Length {
        mem[dst + p.body[k].target] := Sum(p.body[k].terms, Valued(mem[..], locals, src));
      }
      k := k + 1;
    }
    assert p.body[..k] == p.body;
  }

  /** The emitted loop. Whether the buffers are one or apart, every frame comes
      out as the matrix product of what the source frame held at the start. */
  method RunConverter(mem: array<real>, p: Program, ghost c: Matrix, src0: nat, dst0: nat, frames: nat)
    requires p.from != p.to && p == ProgramOf(c, p.from, p.to) && Buffers(c, p.from, p.to, src0, dst0, frames)
    requires At(src0, frames, p.from) <= mem.Length && At(dst0, frames, p.to) <= mem.Length
    modifies mem
    ensures Converted(c, p.from, p.to, src0, dst0, old(mem[..]), mem[..], 0, frames)
  {
    if p.backwards {
      RunBackwards(mem, p, c, src0, dst0, frames);
    } else {
      RunForwards(mem, p, c, src0, dst0, frames);
    }
  }

  method ConvertEarlierFrame(mem: array<real>, p: Program, ghost c: Matrix, ghost src0: nat, ghost dst0: nat,
                             ghost frames: nat, ghost mem0: seq<real>, src: nat, dst: nat, ghost f: nat)
    requires p.from < p.to && p == ProgramOf(c, p.from, p.to) && Buffers(c, p.from, p.to, src0, dst0, frames)
    requires At(src0, frames, p.from) <= mem.Length && At(dst0, frames, p.to) <= mem.Length && f < frames
    requires src == At(src0, f, p.from) && dst == At(dst0, f, p.to)
    requires Converted(c, p.from, p.to, src0, dst0, mem0, mem[..], f + 1, frames)
    modifies mem
    ensures Converted(c, p.from, p.to, src0, dst0, mem0, mem[..], f, frames)
  {
    OneEarlierFrame(c, p.from, p.to, src0, dst0, frames, mem0, mem[..], f);
    ConvertFrame(mem, p, src, dst);
  }

  method ConvertLaterFrame(mem: array<real>, p: Program, ghost c: Matrix, ghost src0: nat, ghost dst0: nat,
                           ghost frames: nat, ghost mem0: seq<real>, src: nat, dst: nat, ghost f: nat)
    requires p.from > p.to && p == ProgramOf(c, p.from, p.to) && Buffers(c, p.from, p.to, src0, dst0, frames)
    requires At(src0, frames, p.from) <= mem.Length && At(dst0, frames, p.to) <= mem.Length && f < frames
    requires src == At(src0, f, p.from) && dst == At(dst0, f, p.to)
    requires Converted(c, p.from, p.to, src0, dst0, mem0, mem[..], 0, f)
    modifies mem
    ensures Converted(c, p.from, p.to, src0, dst0, mem0, mem[..], 0, f + 1)
  {
    OneLaterFrame(c, p.from, p.to, src0, dst0, frames, mem0, mem[..], f);
    ConvertFrame(mem, p, src, dst);
  }

  method RunBackwards(mem: array<real>, p: Program, ghost c: Matrix, src0: nat, dst0: nat, frames: nat)
    requires p.from < p.to && p == ProgramOf(c, p.from, p.to) && Buffers(c, p.from, p.to, src0, dst0, frames)
    requires At(src0, frames, p.from) <= mem.Length && At(dst0, frames, p.to) <= mem.Length
    modifies mem
    ensures Converted(c, p.from, p.to, src0, dst0, old(mem[..]), mem[..], 0, frames)
  {
    ghost var mem0 := mem[..];
    var i := frames;
    var src: int, dst: int := src0 + (frames - 1) * p.from, dst0 + (frames - 1) * p.to;
    if frames > 0 {
      AtIsProduct(src0, frames - 1, p.from);
      AtIsProduct(dst0, frames - 1, p.to);
    }
    while i > 0
      invariant 0 <= i <= frames
      invariant i > 0 ==> src == At(src0, i - 1, p.from) && dst == At(dst0, i - 1, p.to)
      invariant Converted(c, p.from, p.to, src0, dst0, mem0, mem[..], i, frames)
    {
      ConvertEarlierFrame(mem, p, c, src0, dst0, frames, mem0, src, dst, i - 1);
      i, src, dst := i - 1, src - p.from, dst - p.to;
    }
  }

  method RunForwards(mem: array<real>, p: Program, ghost c: Matrix, src0: nat, dst0: nat, frames: nat)
    requires p.from > p.to && p == ProgramOf(c, p.from, p.to) && Buffers(c, p.from, p.to, src0, dst0, frames)
    requires At(src0, frames, p.from) <= mem.Length && At(dst0, frames, p.to) <= mem.Length
    modifies mem
    ensures Converted(c, p.from, p.to, src0, dst0, old(mem[..]), mem[..], 0, frames)
  {
    ghost var mem0 := mem[..];
    var i, src, dst := frames, src0, dst0;
    while i > 0
      invariant 0 <= i <= frames && src == At(src0, frames - i, p.from) && dst == At(dst0, frames - i, p.to)
      invariant Converted(c, p.from, p.to, src0, dst0, mem0, mem[..], 0, frames - i)
    {
      ConvertLaterFrame(mem, p, c, src0, dst0, frames, mem0, src, dst, frames - i);
      i, src, dst := i - 1, src + p.from, dst + p.to;
    }
  }
}
