/** What the coefficient tables of gen_audio_channel_conversion.c promise to the
    ear: no output is too loud, no input is lost, every speaker keeps its place,
    and left and right are treated alike. */
module ChannelLevels {
  import opened Arithmetic
  import opened ChannelConverter

  // ----- tables -----

  type Rows = seq<seq<real>>

  /** The table as the generator walks it. */
  function Flatten(rows: Rows): seq<real> {
    if rows == [] then [] else Flatten(rows[..|rows| - 1]) + rows[|rows| - 1]
  }

  ghost predicate Shaped(rows: Rows, from: nat, to: nat) {
    |rows| == to && forall j :: 0 <= j < to ==> |rows[j]| == from
  }

  lemma {:induction false} FlattenLength(rows: Rows, from: nat)
    requires Shaped(rows, from, |rows|)
    ensures |Flatten(rows)| == |rows| * from
  {
    if rows != [] {
      var last := |rows| - 1;
      FlattenLength(rows[..last], from);
      Distribute(from, last, 1);
    }
  }

  lemma {:induction false} FlattenAt(rows: Rows, from: nat, j: nat, i: nat)
    requires Shaped(rows, from, |rows|) && j < |rows| && i < from
    ensures 0 <= j * from + i < |Flatten(rows)| && Flatten(rows)[j * from + i] == rows[j][i]
  {
    var last := |rows| - 1;
    var front := rows[..last];
    FlattenLength(front, from);
    if j < last {
      FlattenAt(front, from, j, i);
      assert Flatten(rows)[j * from + i] == Flatten(front)[j * from + i];
    }
  }

  // ----- speakers -----

  datatype Speaker = FL | FR | FC | LFE | BL | BR | BC | SL | SR

  /** The speakers of each number of channels. */
  function Layout(n: nat): (r: seq<Speaker>)
    requires 1 <= n <= 8
    ensures |r| == n
  {
    match n
    case 1 => [FC]
    case 2 => [FL, FR]
    case 3 => [FL, FR, LFE]
    case 4 => [FL, FR, BL, BR]
    case 5 => [FL, FR, LFE, BL, BR]
    case 6 => [FL, FR, FC, LFE, BL, BR]
    case 7 => [FL, FR, FC, LFE, BC, SL, SR]
    case _ => [FL, FR, FC, LFE, BL, BR, SL, SR]
  }

  /** The channel of speaker `s`, or `n` if there is none. */
  function Channel(n: nat, s: Speaker): (r: nat)
    requires 1 <= n <= 8
    ensures if s in Layout(n) then r < n && Layout(n)[r] == s else r == n
  {
    match s
    case FL => if n >= 2 then 0 else n
    case FR => if n >= 2 then 1 else n
    case FC => if n == 1 then 0 else if n >= 6 then 2 else n
    case LFE => if n == 3 || n == 5 then 2 else if n >= 6 then 3 else n
    case BL => if n == 4 then 2 else if n == 5 then 3 else if n == 6 || n == 8 then 4 else n
    case BR => if n == 4 then 3 else if n == 5 then 4 else if n == 6 || n == 8 then 5 else n
    case BC => if n == 7 then 4 else n
    case SL => if n == 7 then 5 else if n == 8 then 6 else n
    case SR => if n == 7 then 6 else if n == 8 then 7 else n
  }

  predicate IsLeft(s: Speaker) {
    s == FL || s == BL || s == SL
  }

  /** The speaker on the other side; one in the middle is its own opposite. */
  function Opposite(s: Speaker): Speaker {
    match s
    case FL => FR
    case FR => FL
    case BL => BR
    case BR => BL
    case SL => SR
    case SR => SL
    case _ => s
  }

  function Opposites(n: nat): (r: seq<nat>)
    requires 1 <= n <= 8
    ensures |r| == n
  {
    match n
    case 1 => [0]
    case 2 => [1, 0]
    case 3 => [1, 0, 2]
    case 4 => [1, 0, 3, 2]
    case 5 => [1, 0, 2, 4, 3]
    case 6 => [1, 0, 2, 3, 5, 4]
    case 7 => [1, 0, 2, 3, 4, 6, 5]
    case _ => [1, 0, 2, 3, 5, 4, 7, 6]
  }

  /** The channel of the opposite speaker. */
  function Mirror(n: nat, i: nat): (r: nat)
    requires 1 <= n <= 8 && i < n
    ensures r < n && Layout(n)[r] == Opposite(Layout(n)[i])
  {
    Opposites(n)[i]
  }

  // ----- levels -----

  function Cell(rows: Rows, j: nat, i: nat): real {
    if j < |rows| && i < |rows[j]| then rows[j][i] else 0.0
  }

  /** The coefficients that output `j` adds up. */
  function RowTotal(rows: Rows, j: nat): real {
    Cell(rows, j, 0) + Cell(rows, j, 1) + Cell(rows, j, 2) + Cell(rows, j, 3) +
    Cell(rows, j, 4) + Cell(rows, j, 5) + Cell(rows, j, 6) + Cell(rows, j, 7)
  }

  /** How much of input `i` all outputs take together. */
  function ColumnTotal(rows: Rows, i: nat): real {
    Cell(rows, 0, i) + Cell(rows, 1, i) + Cell(rows, 2, i) + Cell(rows, 3, i) +
    Cell(rows, 4, i) + Cell(rows, 5, i) + Cell(rows, 6, i) + Cell(rows, 7, i)
  }

  /** Full scale, with room for the rounding of the coefficients. */
  const LOUDEST := 1.002

  predicate NotLouder(rows: Rows, j: nat) {
    && Cell(rows, j, 0) >= 0.0 && Cell(rows, j, 1) >= 0.0 && Cell(rows, j, 2) >= 0.0 && Cell(rows, j, 3) >= 0.0
    && Cell(rows, j, 4) >= 0.0 && Cell(rows, j, 5) >= 0.0 && Cell(rows, j, 6) >= 0.0 && Cell(rows, j, 7) >= 0.0
    && RowTotal(rows, j) <= LOUDEST
  }

  /** No output is too loud; with up to five outputs the front ones are not too
      quiet either. */
  ghost predicate Leveled(rows: Rows, from: nat, to: nat) {
    && Shaped(rows, from, to)
    && (forall j: nat :: j < to ==> NotLouder(rows, j))
    && (to <= 5 ==> RowTotal(rows, 0) >= 0.999)
  }

  predicate NotLost(rows: Rows, from: nat, i: nat) {
    from as real * ColumnTotal(rows, i) >= 1.0
  }

  /** Every input gets at least an even share of one output. */
  ghost predicate Kept(rows: Rows, from: nat, to: nat) {
    Shaped(rows, from, to) && forall i: nat :: i < from ==> NotLost(rows, from, i)
  }

  lemma NonNegative(rows: Rows, from: nat, to: nat, j: nat, i: nat)
    requires Leveled(rows, from, to) && j < to && i < from <= 8
    ensures rows[j][i] >= 0.0
  {
    assert NotLouder(rows, j);
    assert rows[j][i] == Cell(rows, j, i);
  }

  lemma SomeCell(rows: Rows, i: nat) returns (j: nat)
    requires ColumnTotal(rows, i) > 0.0
    ensures Cell(rows, j, i) > 0.0
  {
    j := if Cell(rows, 0, i) > 0.0 then 0 else if Cell(rows, 1, i) > 0.0 then 1
         else if Cell(rows, 2, i) > 0.0 then 2 else if Cell(rows, 3, i) > 0.0 then 3
         else if Cell(rows, 4, i) > 0.0 then 4 else if Cell(rows, 5, i) > 0.0 then 5
         else if Cell(rows, 6, i) > 0.0 then 6 else 7;
  }

  lemma Reaches(rows: Rows, from: nat, to: nat, i: nat)
    requires Kept(rows, from, to) && i < from
    ensures exists j: nat :: j < to && rows[j][i] > 0.0
  {
    assert NotLost(rows, from, i);
    var j := SomeCell(rows, i);
    assert j < to && rows[j][i] > 0.0;
  }

  // ----- places -----

  predicate Same(rows: Rows, j: nat, i: nat, j': nat, i': nat) {
    Cell(rows, j, i) == Cell(rows, j', i')
  }

  /** Output `j` takes from each input what output `j'` takes from the opposite one. */
  predicate Mirrored(rows: Rows, from: nat, j: nat, j': nat)
    requires 1 <= from <= 8
  {
    && (from == 1 ==> Same(rows, j, 0, j', 0))
    && (from >= 2 ==> Same(rows, j, 0, j', 1) && Same(rows, j, 1, j', 0))
    && (from == 4 ==> Same(rows, j, 2, j', 3) && Same(rows, j, 3, j', 2))
    && (from == 3 || from >= 5 ==> Same(rows, j, 2, j', 2))
    && (from == 5 ==> Same(rows, j, 3, j', 4) && Same(rows, j, 4, j', 3))
    && (from >= 6 ==> Same(rows, j, 3, j', 3))
    && (from == 7 ==> Same(rows, j, 4, j', 4) && Same(rows, j, 5, j', 6) && Same(rows, j, 6, j', 5))
    && (from == 6 || from == 8 ==> Same(rows, j, 4, j', 5) && Same(rows, j, 5, j', 4))
    && (from == 8 ==> Same(rows, j, 6, j', 7) && Same(rows, j, 7, j', 6))
  }

  predicate Symmetric(rows: Rows, from: nat, to: nat)
    requires 1 <= from <= 8 && 1 <= to <= 8
  {
    && (to == 1 ==> Mirrored(rows, from, 0, 0))
    && (to >= 2 ==> Mirrored(rows, from, 0, 1))
    && (to == 4 ==> Mirrored(rows, from, 2, 3))
    && (to == 3 || to >= 5 ==> Mirrored(rows, from, 2, 2))
    && (to == 5 ==> Mirrored(rows, from, 3, 4))
    && (to >= 6 ==> Mirrored(rows, from, 3, 3))
    && (to == 7 ==> Mirrored(rows, from, 4, 4) && Mirrored(rows, from, 5, 6))
    && (to == 6 || to == 8 ==> Mirrored(rows, from, 4, 5))
    && (to == 8 ==> Mirrored(rows, from, 6, 7))
  }

  lemma MirroredAt(rows: Rows, from: nat, j: nat, j': nat, i: nat)
    requires 1 <= from <= 8 && Mirrored(rows, from, j, j') && i < from
    ensures Cell(rows, j', Mirror(from, i)) == Cell(rows, j, i)
    ensures Cell(rows, j, Mirror(from, i)) == Cell(rows, j', i)
  {
  }

  lemma SymmetricRow(rows: Rows, from: nat, to: nat, j: nat)
    requires 1 <= from <= 8 && 1 <= to <= 8 && Symmetric(rows, from, to) && j < to
    ensures Mirrored(rows, from, j, Mirror(to, j)) || Mirrored(rows, from, Mirror(to, j), j)
  {
  }

  /** Exchanging left and right in the inputs exchanges left and right in the outputs. */
  lemma SymmetricAt(rows: Rows, from: nat, to: nat, j: nat, i: nat)
    requires 1 <= from <= 8 && 1 <= to <= 8 && Shaped(rows, from, to) && Symmetric(rows, from, to) && j < to && i < from
    ensures rows[Mirror(to, j)][Mirror(from, i)] == rows[j][i]
  {
    SymmetricRow(rows, from, to, j);
    if Mirrored(rows, from, j, Mirror(to, j)) {
      MirroredAt(rows, from, j, Mirror(to, j), i);
    } else {
      MirroredAt(rows, from, Mirror(to, j), j, i);
    }
    assert Cell(rows, Mirror(to, j), Mirror(from, i)) == Cell(rows, j, i);
  }

  predicate AtLeast(rows: Rows, j: nat, i: nat, i': nat) {
    Cell(rows, j, i) >= Cell(rows, j, i')
  }

  /** Output `j` takes at least as much from each left input as from its opposite. */
  predicate LeansLeft(rows: Rows, from: nat, j: nat) {
    && (from >= 2 ==> AtLeast(rows, j, 0, 1))
    && (from == 4 ==> AtLeast(rows, j, 2, 3))
    && (from == 5 ==> AtLeast(rows, j, 3, 4))
    && (from == 6 || from == 8 ==> AtLeast(rows, j, 4, 5))
    && (from == 7 ==> AtLeast(rows, j, 5, 6))
    && (from == 8 ==> AtLeast(rows, j, 6, 7))
  }

  predicate Sided(rows: Rows, from: nat, to: nat) {
    && (to >= 2 ==> LeansLeft(rows, from, 0))
    && (to == 4 ==> LeansLeft(rows, from, 2))
    && (to == 5 ==> LeansLeft(rows, from, 3))
    && (to == 6 || to == 8 ==> LeansLeft(rows, from, 4))
    && (to == 7 ==> LeansLeft(rows, from, 5))
    && (to == 8 ==> LeansLeft(rows, from, 6))
  }

  lemma SidedAt(rows: Rows, from: nat, to: nat, j: nat, i: nat)
    requires 1 <= from <= 8 && 1 <= to <= 8 && Shaped(rows, from, to) && Sided(rows, from, to) && j < to && i < from
    requires IsLeft(Layout(to)[j]) && IsLeft(Layout(from)[i])
    ensures rows[j][i] >= rows[j][Mirror(from, i)]
  {
    assert LeansLeft(rows, from, j);
    assert Cell(rows, j, i) >= Cell(rows, j, Mirror(from, i));
  }

  /** Where both layouts have speaker `s`, its output takes its input. */
  predicate Plays(rows: Rows, from: nat, to: nat, s: Speaker)
    requires 1 <= from <= 8 && 1 <= to <= 8
  {
    Channel(from, s) < from && Channel(to, s) < to ==> Cell(rows, Channel(to, s), Channel(from, s)) > 0.0
  }

  /** The bass channel passes as it is. */
  predicate BassPasses(rows: Rows, from: nat, to: nat)
    requires 1 <= from <= 8 && 1 <= to <= 8
  {
    Channel(from, LFE) < from && Channel(to, LFE) < to ==> Cell(rows, Channel(to, LFE), Channel(from, LFE)) == 1.0
  }

  /** The front left output takes from no input more than from its own. */
  predicate FrontLeads(rows: Rows) {
    && AtLeast(rows, 0, 0, 1) && AtLeast(rows, 0, 0, 2) && AtLeast(rows, 0, 0, 3) && AtLeast(rows, 0, 0, 4)
    && AtLeast(rows, 0, 0, 5) && AtLeast(rows, 0, 0, 6) && AtLeast(rows, 0, 0, 7)
  }

  predicate AllPlay(rows: Rows, from: nat, to: nat)
    requires 1 <= from <= 8 && 1 <= to <= 8
  {
    && Plays(rows, from, to, FL) && Plays(rows, from, to, FC) && Plays(rows, from, to, BL)
    && Plays(rows, from, to, BC) && Plays(rows, from, to, SL)
  }

  predicate InPlace(rows: Rows, from: nat, to: nat)
    requires 1 <= from <= 8 && 1 <= to <= 8
  {
    Sided(rows, from, to) && BassPasses(rows, from, to) && (to >= 2 ==> FrontLeads(rows))
  }

  /** All of it, but that a mono input goes to the front speakers and not to the
      center that it is named after. */
  ghost predicate Faithful(rows: Rows, from: nat, to: nat)
    requires 1 <= from <= 8 && 1 <= to <= 8
  {
    && Leveled(rows, from, to) && Kept(rows, from, to) && Symmetric(rows, from, to)
    && (from >= 2 ==> AllPlay(rows, from, to)) && InPlace(rows, from, to)
  }

  lemma ChannelOpposite(n: nat, s: Speaker)
    requires 1 <= n <= 8 && Channel(n, s) < n
    ensures Channel(n, Opposite(s)) < n && Mirror(n, Channel(n, Opposite(s))) == Channel(n, s)
  {
  }

  lemma PlaysItself(rows: Rows, from: nat, to: nat, s: Speaker)
    requires 2 <= from <= 8 && 1 <= to <= 8 && Faithful(rows, from, to)
    requires Channel(from, s) < from && Channel(to, s) < to
    ensures rows[Channel(to, s)][Channel(from, s)] > 0.0
  {
    if s == FR || s == BR || s == SR {
      ChannelOpposite(from, s);
      ChannelOpposite(to, s);
      assert Plays(rows, from, to, Opposite(s));
      SymmetricAt(rows, from, to, Channel(to, Opposite(s)), Channel(from, Opposite(s)));
    } else if s != LFE {
      assert Plays(rows, from, to, s);
    }
  }

  lemma FrontTakesOwn(rows: Rows, from: nat, to: nat, i: nat)
    requires 2 <= from <= 8 && 2 <= to <= 8 && Faithful(rows, from, to) && i < from
    ensures rows[0][i] <= rows[0][0]
  {
    assert rows[0][i] == Cell(rows, 0, i) && rows[0][0] == Cell(rows, 0, 0);
  }

  /** If both layouts have speaker `s`, its output takes its input; the bass passes
      as it is, and front left takes from no input more than from front left. */
  ghost predicate HasPlace(rows: Rows, from: nat, to: nat, s: Speaker)
    requires 1 <= from <= 8 && 1 <= to <= 8 && Shaped(rows, from, to)
  {
    s in Layout(from) && s in Layout(to) ==>
      && rows[Channel(to, s)][Channel(from, s)] > 0.0
      && (s == LFE ==> rows[Channel(to, s)][Channel(from, s)] == 1.0)
      && (s == FL ==> forall i: nat :: i < from ==> rows[0][i] <= rows[0][0])
  }

  lemma SpeakerHasPlace(rows: Rows, from: nat, to: nat, s: Speaker)
    requires 2 <= from <= 8 && 1 <= to <= 8 && Faithful(rows, from, to)
    ensures HasPlace(rows, from, to, s)
  {
    if s in Layout(from) && s in Layout(to) {
      PlaysItself(rows, from, to, s);
      if s == FL {
        forall i: nat | i < from
          ensures rows[0][i] <= rows[0][0]
        {
          FrontTakesOwn(rows, from, to, i);
        }
      }
    }
  }

  // ----- samples -----

  ghost predicate Within(mem: seq<real>, lo: int, hi: int, bound: real)
    requires 0 <= lo <= hi <= |mem|
  {
    forall at :: lo <= at < hi ==> -bound <= mem[at] <= bound
  }

  function CellsOf(rows: Rows, j: nat): nat -> real {
    (i: nat) => Cell(rows, j, i)
  }

  lemma {:induction false} NothingBeyondRow(rows: Rows, from: nat, to: nat, j: nat, n: nat)
    requires Shaped(rows, from, to) && j < to && from <= n
    ensures SumTo(CellsOf(rows, j), n) == SumTo(CellsOf(rows, j), from)
  {
    if from < n {
      NothingBeyondRow(rows, from, to, j, n - 1);
    }
  }

  lemma SumIsTotal(rows: Rows, j: nat)
    ensures SumTo(CellsOf(rows, j), 8) == RowTotal(rows, j)
  {
    var v := CellsOf(rows, j);
    assert SumTo(v, 1) == Cell(rows, j, 0);
    assert SumTo(v, 3) == SumTo(v, 1) + Cell(rows, j, 1) + Cell(rows, j, 2);
    assert SumTo(v, 5) == SumTo(v, 3) + Cell(rows, j, 3) + Cell(rows, j, 4);
    assert SumTo(v, 7) == SumTo(v, 5) + Cell(rows, j, 5) + Cell(rows, j, 6);
  }

  lemma {:induction false} SumWithin(v: nat -> real, w: nat -> real, n: nat)
    requires forall i: nat :: i < n ==> -w(i) <= v(i) <= w(i)
    ensures -SumTo(w, n) <= SumTo(v, n) <= SumTo(w, n)
  {
    if n > 0 {
      SumWithin(v, w, n - 1);
    }
  }

  lemma Scaled(x: real, c: real)
    requires -1.0 <= x <= 1.0 && c >= 0.0
    ensures -c <= x * c <= c
  {
  }

  lemma ScaledContribution(c: Matrix, j: nat, mem: seq<real>, at: nat, i: nat)
    requires c(j, i) >= 0.0 && at + i < |mem| && -1.0 <= mem[at + i] <= 1.0
    ensures -c(j, i) <= Contribution(c, j, mem, at, i) <= c(j, i)
  {
    Scaled(mem[at + i], c(j, i));
  }

  lemma ContributionWithin(rows: Rows, from: nat, to: nat, j: nat, mem: seq<real>, at: nat, i: nat)
    requires Leveled(rows, from, to) && j < to && i < from <= 8 && at + from <= |mem| && Within(mem, at, at + from, 1.0)
    ensures -Cell(rows, j, i) <= Contribution(Flat(Flatten(rows), from), j, mem, at, i) <= Cell(rows, j, i)
  {
    FlattenAt(rows, from, j, i);
    NonNegative(rows, from, to, j, i);
    var c := Flat(Flatten(rows), from);
    assert c(j, i) == rows[j][i] == Cell(rows, j, i);
    ScaledContribution(c, j, mem, at, i);
  }

  /** A frame at full scale comes out at full scale. */
  lemma ProductWithin(rows: Rows, from: nat, to: nat, j: nat, mem: seq<real>, at: nat)
    requires Leveled(rows, from, to) && j < to && from <= 8 && at + from <= |mem| && Within(mem, at, at + from, 1.0)
    ensures -LOUDEST <= Product(Flat(Flatten(rows), from), from, j, mem, at) <= LOUDEST
  {
    var c := Flat(Flatten(rows), from);
    forall i: nat | i < from
      ensures -CellsOf(rows, j)(i) <= Contributions(c, j, mem, at)(i) <= CellsOf(rows, j)(i)
    {
      ContributionWithin(rows, from, to, j, mem, at, i);
    }
    SumWithin(Contributions(c, j, mem, at), CellsOf(rows, j), from);
    NothingBeyondRow(rows, from, to, j, 8);
    SumIsTotal(rows, j);
    assert NotLouder(rows, j);
  }

  lemma FrameWithin(rows: Rows, from: nat, to: nat, mem: seq<real>, r: seq<real>, src: nat, dst: nat)
    requires Leveled(rows, from, to) && from <= 8 && src + from <= |mem| && dst + to <= |r|
    requires Within(mem, src, src + from, 1.0) && FrameConverted(Flat(Flatten(rows), from), from, to, mem, r, src, dst)
    ensures Within(r, dst, dst + to, LOUDEST)
  {
    forall at | dst <= at < dst + to
      ensures -LOUDEST <= r[at] <= LOUDEST
    {
      var j: nat := at - dst;
      assert r[dst + j] == Product(Flat(Flatten(rows), from), from, j, mem, src);
      ProductWithin(rows, from, to, j, mem, src);
    }
  }

  /** So does a whole buffer. */
  lemma {:induction false} BufferWithin(rows: Rows, from: nat, to: nat, base: nat, mem: seq<real>, r: seq<real>, frames: nat)
    requires Leveled(rows, from, to) && from <= 8 && At(base, frames, from) <= |mem| && At(base, frames, to) <= |r|
    requires Within(mem, base, At(base, frames, from), 1.0)
    requires forall f: nat :: f < frames ==> FrameDone(Flat(Flatten(rows), from), from, to, base, base, mem, r, f)
    ensures Within(r, base, At(base, frames, to), LOUDEST)
  {
    if frames > 0 {
      var f := frames - 1;
      BufferWithin(rows, from, to, base, mem, r, f);
      assert FrameDone(Flat(Flatten(rows), from), from, to, base, base, mem, r, f);
      FrameWithin(rows, from, to, mem, r, At(base, f, from), At(base, f, to));
    }
  }
}
