/** The coefficient tables of gen_audio_channel_conversion.c, row by row, and
    the proof that every converter made from them may run in place. */
module ChannelTables {
  import opened ChannelConverter
  import opened ChannelLevels
  import opened ChannelNecessity

  /** Output `j` takes input `i`, whose slot is written before output `j` is. */
  ghost predicate WrongSide(rows: Rows, from: nat, to: nat, j: nat, i: nat)
    requires Shaped(rows, from, to) && j < to && i < from
  {
    rows[j][i] != 0.0 && if to > from then i > j else i < j
  }

  /** Every such input is taken by another output too, so that it is kept in a local. */
  ghost predicate Covered(rows: Rows, from: nat, to: nat) {
    && Shaped(rows, from, to)
    && forall j: nat, i: nat :: j < to && i < from && WrongSide(rows, from, to, j, i) ==>
         exists j': nat :: j' < to && j' != j && rows[j'][i] != 0.0
  }

  lemma CoveredIsSafe(rows: Rows, from: nat, to: nat)
    requires Covered(rows, from, to)
    ensures Safe(Flat(Flatten(rows), from), from, to)
  {
    var c := Flat(Flatten(rows), from);
    forall j: nat, i: nat | j < to && i < from && c(j, i) != 0.0 && Used(c, i, to) <= 1
      ensures if to > from then i <= j else j <= i
    {
      FlattenAt(rows, from, j, i);
      if WrongSide(rows, from, to, j, i) {
        var j': nat :| j' < to && j' != j && rows[j'][i] != 0.0;
        FlattenAt(rows, from, j', i);
        UsedTwice(c, i, if j < j' then j else j', if j < j' then j' else j, to);
      }
    }
  }

  function ConversionMatrix(from: nat, to: nat): Rows
    requires 1 <= from <= 8 && 1 <= to <= 8
  {
    match from
    case 1 => From1(to)
    case 2 => From2(to)
    case 3 => From3(to)
    case 4 => From4(to)
    case 5 => From5(to)
    case 6 => From6(to)
    case 7 => From7(to)
    case _ => From8(to)
  }

  function From1(to: nat): Rows
    requires 1 <= to <= 8
  {
    match to
    case 1 =>
      [[1.0]]
    case 2 =>
      [[1.0], [1.0]]
    case 3 =>
      [[1.0], [1.0], [0.0]]
    case 4 =>
      [[1.0], [1.0], [0.0], [0.0]]
    case 5 =>
      [[1.0], [1.0], [0.0], [0.0], [0.0]]
    case 6 =>
      [[1.0], [1.0], [0.0], [0.0], [0.0], [0.0]]
    case 7 =>
      [[1.0], [1.0], [0.0], [0.0], [0.0], [0.0], [0.0]]
    case _ =>
      [[1.0], [1.0], [0.0], [0.0], [0.0], [0.0], [0.0], [0.0]]
  }

  function From2(to: nat): Rows
    requires 1 <= to <= 8
  {
    match to
    case 1 =>
      [[0.5, 0.5]]
    case 2 =>
      [[1.0, 0.0], [0.0, 1.0]]
    case 3 =>
      [[1.0, 0.0], [0.0, 1.0], [0.0, 0.0]]
    case 4 =>
      [[1.0, 0.0], [0.0, 1.0], [0.0, 0.0], [0.0, 0.0]]
    case 5 =>
      [[1.0, 0.0], [0.0, 1.0], [0.0, 0.0], [0.0, 0.0], [0.0, 0.0]]
    case 6 =>
      [[1.0, 0.0], [0.0, 1.0], [0.0, 0.0], [0.0, 0.0], [0.0, 0.0], [0.0, 0.0]]
    case 7 =>
      [[1.0, 0.0], [0.0, 1.0], [0.0, 0.0], [0.0, 0.0], [0.0, 0.0], [0.0, 0.0], [0.0, 0.0]]
    case _ =>
      [[1.0, 0.0], [0.0, 1.0], [0.0, 0.0], [0.0, 0.0], [0.0, 0.0], [0.0, 0.0], [0.0, 0.0], [0.0, 0.0]]
  }

  function From3(to: nat): Rows
    requires 1 <= to <= 8
  {
    match to
    case 1 =>
      [[0.333333343, 0.333333343, 0.333333343]]
    case 2 =>
      [[0.800000012, 0.0, 0.200000003],
       [0.0, 0.800000012, 0.200000003]]
    case 3 =>
      [[1.0, 0.0, 0.0],
       [0.0, 1.0, 0.0],
       [0.0, 0.0, 1.0]]
    case 4 =>
      [[0.888888896, 0.0, 0.111111112],
       [0.0, 0.888888896, 0.111111112],
       [0.0, 0.0, 0.111111112],
       [0.0, 0.0, 0.111111112]]
    case 5 =>
      [[1.0, 0.0, 0.0],
       [0.0, 1.0, 0.0],
       [0.0, 0.0, 1.0],
       [0.0, 0.0, 0.0],
       [0.0, 0.0, 0.0]]
    case 6 =>
      [[1.0, 0.0, 0.0],
       [0.0, 1.0, 0.0],
       [0.0, 0.0, 0.0],
       [0.0, 0.0, 1.0],
       [0.0, 0.0, 0.0],
       [0.0, 0.0, 0.0]]
    case 7 =>
      [[1.0, 0.0, 0.0],
       [0.0, 1.0, 0.0],
       [0.0, 0.0, 0.0],
       [0.0, 0.0, 1.0],
       [0.0, 0.0, 0.0],
       [0.0, 0.0, 0.0],
       [0.0, 0.0, 0.0]]
    case _ =>
      [[1.0, 0.0, 0.0],
       [0.0, 1.0, 0.0],
       [0.0, 0.0, 0.0],
       [0.0, 0.0, 1.0],
       [0.0, 0.0, 0.0],
       [0.0, 0.0, 0.0],
       [0.0, 0.0, 0.0],
       [0.0, 0.0, 0.0]]
  }

  function From4(to: nat): Rows
    requires 1 <= to <= 8
  {
    match to
    case 1 =>
      [[0.25, 0.25, 0.25, 0.25]]
    case 2 =>
      [[0.421000004, 0.0, 0.358999997, 0.219999999],
       [0.0, 0.421000004, 0.219999999, 0.358999997]]
    case 3 =>
      [[0.421000004, 0.0, 0.358999997, 0.219999999],
       [0.0, 0.421000004, 0.219999999, 0.358999997],
       [0.0, 0.0, 0.0, 0.0]]
    case 4 =>
      [[1.0, 0.0, 0.0, 0.0],
       [0.0, 1.0, 0.0, 0.0],
       [0.0, 0.0, 1.0, 0.0],
       [0.0, 0.0, 0.0, 1.0]]
    case 5 =>
      [[1.0, 0.0, 0.0, 0.0],
       [0.0, 1.0, 0.0, 0.0],
       [0.0, 0.0, 0.0, 0.0],
       [0.0, 0.0, 1.0, 0.0],
       [0.0, 0.0, 0.0, 1.0]]
    case 6 =>
      [[1.0, 0.0, 0.0, 0.0],
       [0.0, 1.0, 0.0, 0.0],
       [0.0, 0.0, 0.0, 0.0],
       [0.0, 0.0, 0.0, 0.0],
       [0.0, 0.0, 1.0, 0.0],
       [0.0, 0.0, 0.0, 1.0]]
    case 7 =>
      [[0.939999998, 0.0, 0.0, 0.0],
       [0.0, 0.939999998, 0.0, 0.0],
       [0.0, 0.0, 0.0, 0.0],
       [0.0, 0.0, 0.0, 0.0],
       [0.0, 0.0, 0.5, 0.5],
       [0.0, 0.0, 0.796000004, 0.0],
       [0.0, 0.0, 0.0, 0.796000004]]
    case _ =>
      [[1.0, 0.0, 0.0, 0.0],
       [0.0, 1.0, 0.0, 0.0],
       [0.0, 0.0, 0.0, 0.0],
       [0.0, 0.0, 0.0, 0.0],
       [0.0, 0.0, 1.0, 0.0],
       [0.0, 0.0, 0.0, 1.0],
       [0.0, 0.0, 0.0, 0.0],
       [0.0, 0.0, 0.0, 0.0]]
  }

  function From5(to: nat): Rows
    requires 1 <= to <= 8
  {
    match to
    case 1 =>
      [[0.200000003, 0.200000003, 0.200000003, 0.200000003, 0.200000003]]
    case 2 =>
      [[0.374222219, 0.0, 0.111111112, 0.319111109, 0.195555553],
       [0.0, 0.374222219, 0.111111112, 0.195555553, 0.319111109]]
    case 3 =>
      [[0.421000004, 0.0, 0.0, 0.358999997, 0.219999999],
       [0.0, 0.421000004, 0.0, 0.219999999, 0.358999997],
       [0.0, 0.0, 1.0, 0.0, 0.0]]
    case 4 =>
      [[0.941176474, 0.0, 0.05882353, 0.0, 0.0],
       [0.0, 0.941176474, 0.05882353, 0.0, 0.0],
       [0.0, 0.0, 0.05882353, 0.941176474, 0.0],
       [0.0, 0.0, 0.05882353, 0.0, 0.941176474]]
    case 5 =>
      [[1.0, 0.0, 0.0, 0.0, 0.0],
       [0.0, 1.0, 0.0, 0.0, 0.0],
       [0.0, 0.0, 1.0, 0.0, 0.0],
       [0.0, 0.0, 0.0, 1.0, 0.0],
       [0.0, 0.0, 0.0, 0.0, 1.0]]
    case 6 =>
      [[1.0, 0.0, 0.0, 0.0, 0.0],
       [0.0, 1.0, 0.0, 0.0, 0.0],
       [0.0, 0.0, 0.0, 0.0, 0.0],
       [0.0, 0.0, 1.0, 0.0, 0.0],
       [0.0, 0.0, 0.0, 1.0, 0.0],
       [0.0, 0.0, 0.0, 0.0, 1.0]]
    case 7 =>
      [[0.939999998, 0.0, 0.0, 0.0, 0.0],
       [0.0, 0.939999998, 0.0, 0.0, 0.0],
       [0.0, 0.0, 0.0, 0.0, 0.0],
       [0.0, 0.0, 1.0, 0.0, 0.0],
       [0.0, 0.0, 0.0, 0.5, 0.5],
       [0.0, 0.0, 0.0, 0.796000004, 0.0],
       [0.0, 0.0, 0.0, 0.0, 0.796000004]]
    case _ =>
      [[1.0, 0.0, 0.0, 0.0, 0.0],
       [0.0, 1.0, 0.0, 0.0, 0.0],
       [0.0, 0.0, 0.0, 0.0, 0.0],
       [0.0, 0.0, 1.0, 0.0, 0.0],
       [0.0, 0.0, 0.0, 1.0, 0.0],
       [0.0, 0.0, 0.0, 0.0, 1.0],
       [0.0, 0.0, 0.0, 0.0, 0.0],
       [0.0, 0.0, 0.0, 0.0, 0.0]]
  }

  function From6(to: nat): Rows
    requires 1 <= to <= 8
  {
    match to
    case 1 =>
      [[0.166666672, 0.166666672, 0.166666672, 0.166666672, 0.166666672, 0.166666672]]
    case 2 =>
      [[0.294545442, 0.0, 0.208181813, 0.090909094, 0.25181818, 0.154545456],
       [0.0, 0.294545442, 0.208181813, 0.090909094, 0.154545456, 0.25181818]]
    case 3 =>
      [[0.324000001, 0.0, 0.229000002, 0.0, 0.27700001, 0.170000002],
       [0.0, 0.324000001, 0.229000002, 0.0, 0.170000002, 0.27700001],
       [0.0, 0.0, 0.0, 1.0, 0.0, 0.0]]
    case 4 =>
      [[0.558095276, 0.0, 0.394285709, 0.047619049, 0.0, 0.0],
       [0.0, 0.558095276, 0.394285709, 0.047619049, 0.0, 0.0],
       [0.0, 0.0, 0.0, 0.047619049, 0.558095276, 0.0],
       [0.0, 0.0, 0.0, 0.047619049, 0.0, 0.558095276]]
    case 5 =>
      [[0.586000025, 0.0, 0.414000005, 0.0, 0.0, 0.0],
       [0.0, 0.586000025, 0.414000005, 0.0, 0.0, 0.0],
       [0.0, 0.0, 0.0, 1.0, 0.0, 0.0],
       [0.0, 0.0, 0.0, 0.0, 0.586000025, 0.0],
       [0.0, 0.0, 0.0, 0.0, 0.0, 0.586000025]]
    case 6 =>
      [[1.0, 0.0, 0.0, 0.0, 0.0, 0.0],
       [0.0, 1.0, 0.0, 0.0, 0.0, 0.0],
       [0.0, 0.0, 1.0, 0.0, 0.0, 0.0],
       [0.0, 0.0, 0.0, 1.0, 0.0, 0.0],
       [0.0, 0.0, 0.0, 0.0, 1.0, 0.0],
       [0.0, 0.0, 0.0, 0.0, 0.0, 1.0]]
    case 7 =>
      [[0.939999998, 0.0, 0.0, 0.0, 0.0, 0.0],
       [0.0, 0.939999998, 0.0, 0.0, 0.0, 0.0],
       [0.0, 0.0, 0.939999998, 0.0, 0.0, 0.0],
       [0.0, 0.0, 0.0, 1.0, 0.0, 0.0],
       [0.0, 0.0, 0.0, 0.0, 0.5, 0.5],
       [0.0, 0.0, 0.0, 0.0, 0.796000004, 0.0],
       [0.0, 0.0, 0.0, 0.0, 0.0, 0.796000004]]
    case _ =>
      [[1.0, 0.0, 0.0, 0.0, 0.0, 0.0],
       [0.0, 1.0, 0.0, 0.0, 0.0, 0.0],
       [0.0, 0.0, 1.0, 0.0, 0.0, 0.0],
       [0.0, 0.0, 0.0, 1.0, 0.0, 0.0],
       [0.0, 0.0, 0.0, 0.0, 1.0, 0.0],
       [0.0, 0.0, 0.0, 0.0, 0.0, 1.0],
       [0.0, 0.0, 0.0, 0.0, 0.0, 0.0],
       [0.0, 0.0, 0.0, 0.0, 0.0, 0.0]]
  }

  function From7(to: nat): Rows
    requires 1 <= to <= 8
  {
    match to
    case 1 =>
      [[0.143142849, 0.143142849, 0.143142849, 0.142857149, 0.143142849, 0.143142849, 0.143142849]]
    case 2 =>
      [[0.247384623, 0.0, 0.174461529, 0.07692308, 0.174461529, 0.226153851, 0.100615382],
       [0.0, 0.247384623, 0.174461529, 0.07692308, 0.174461529, 0.100615382, 0.226153851]]
    case 3 =>
      [[0.268000007, 0.0, 0.188999996, 0.0, 0.188999996, 0.245000005, 0.108999997],
       [0.0, 0.268000007, 0.188999996, 0.0, 0.188999996, 0.108999997, 0.245000005],
       [0.0, 0.0, 0.0, 1.0, 0.0, 0.0, 0.0]]
    case 4 =>
      [[0.463679999, 0.0, 0.327360004, 0.040000003, 0.0, 0.168960005, 0.0],
       [0.0, 0.463679999, 0.327360004, 0.040000003, 0.0, 0.0, 0.168960005],
       [0.0, 0.0, 0.0, 0.040000003, 0.327360004, 0.431039989, 0.0],
       [0.0, 0.0, 0.0, 0.040000003, 0.327360004, 0.0, 0.431039989]]
    case 5 =>
      [[0.48300001, 0.0, 0.340999991, 0.0, 0.0, 0.175999999, 0.0],
       [0.0, 0.48300001, 0.340999991, 0.0, 0.0, 0.0, 0.175999999],
       [0.0, 0.0, 0.0, 1.0, 0.0, 0.0, 0.0],
       [0.0, 0.0, 0.0, 0.0, 0.340999991, 0.449000001, 0.0],
       [0.0, 0.0, 0.0, 0.0, 0.340999991, 0.0, 0.449000001]]
    case 6 =>
      [[0.611000001, 0.0, 0.0, 0.0, 0.0, 0.223000005, 0.0],
       [0.0, 0.611000001, 0.0, 0.0, 0.0, 0.0, 0.223000005],
       [0.0, 0.0, 0.611000001, 0.0, 0.0, 0.0, 0.0],
       [0.0, 0.0, 0.0, 1.0, 0.0, 0.0, 0.0],
       [0.0, 0.0, 0.0, 0.0, 0.432000011, 0.568000019, 0.0],
       [0.0, 0.0, 0.0, 0.0, 0.432000011, 0.0, 0.568000019]]
    case 7 =>
      [[1.0, 0.0, 0.0, 0.0, 0.0, 0.0, 0.0],
       [0.0, 1.0, 0.0, 0.0, 0.0, 0.0, 0.0],
       [0.0, 0.0, 1.0, 0.0, 0.0, 0.0, 0.0],
       [0.0, 0.0, 0.0, 1.0, 0.0, 0.0, 0.0],
       [0.0, 0.0, 0.0, 0.0, 1.0, 0.0, 0.0],
       [0.0, 0.0, 0.0, 0.0, 0.0, 1.0, 0.0],
       [0.0, 0.0, 0.0, 0.0, 0.0, 0.0, 1.0]]
    case _ =>
      [[1.0, 0.0, 0.0, 0.0, 0.0, 0.0, 0.0],
       [0.0, 1.0, 0.0, 0.0, 0.0, 0.0, 0.0],
       [0.0, 0.0, 1.0, 0.0, 0.0, 0.0, 0.0],
       [0.0, 0.0, 0.0, 1.0, 0.0, 0.0, 0.0],
       [0.0, 0.0, 0.0, 0.0, 0.707000017, 0.0, 0.0],
       [0.0, 0.0, 0.0, 0.0, 0.707000017, 0.0, 0.0],
       [0.0, 0.0, 0.0, 0.0, 0.0, 1.0, 0.0],
       [0.0, 0.0, 0.0, 0.0, 0.0, 0.0, 1.0]]
  }

  function From8(to: nat): Rows
    requires 1 <= to <= 8
  {
    match to
    case 1 =>
      [[0.125125006, 0.125125006, 0.125125006, 0.125, 0.125125006, 0.125125006, 0.125125006, 0.125125006]]
    case 2 =>
      [[0.211866662, 0.0, 0.150266662, 0.06666667, 0.181066677, 0.111066669, 0.194133341, 0.085866667],
       [0.0, 0.211866662, 0.150266662, 0.06666667, 0.111066669, 0.181066677, 0.085866667, 0.194133341]]
    case 3 =>
      [[0.226999998, 0.0, 0.160999998, 0.0, 0.194000006, 0.119000003, 0.208000004, 0.092],
       [0.0, 0.226999998, 0.160999998, 0.0, 0.119000003, 0.194000006, 0.092, 0.208000004],
       [0.0, 0.0, 0.0, 1.0, 0.0, 0.0, 0.0, 0.0]]
    case 4 =>
      [[0.466344833, 0.0, 0.329241365, 0.034482758, 0.0, 0.0, 0.169931039, 0.0],
       [0.0, 0.466344833, 0.329241365, 0.034482758, 0.0, 0.0, 0.0, 0.169931039],
       [0.0, 0.0, 0.0, 0.034482758, 0.466344833, 0.0, 0.433517247, 0.0],
       [0.0, 0.0, 0.0, 0.034482758, 0.0, 0.466344833, 0.0, 0.433517247]]
    case 5 =>
      [[0.48300001, 0.0, 0.340999991, 0.0, 0.0, 0.0, 0.175999999, 0.0],
       [0.0, 0.48300001, 0.340999991, 0.0, 0.0, 0.0, 0.0, 0.175999999],
       [0.0, 0.0, 0.0, 1.0, 0.0, 0.0, 0.0, 0.0],
       [0.0, 0.0, 0.0, 0.0, 0.48300001, 0.0, 0.449000001, 0.0],
       [0.0, 0.0, 0.0, 0.0, 0.0, 0.48300001, 0.0, 0.449000001]]
    case 6 =>
      [[0.518000007, 0.0, 0.0, 0.0, 0.0, 0.0, 0.188999996, 0.0],
       [0.0, 0.518000007, 0.0, 0.0, 0.0, 0.0, 0.0, 0.188999996],
       [0.0, 0.0, 0.518000007, 0.0, 0.0, 0.0, 0.0, 0.0],
       [0.0, 0.0, 0.0, 1.0, 0.0, 0.0, 0.0, 0.0],
       [0.0, 0.0, 0.0, 0.0, 0.518000007, 0.0, 0.481999993, 0.0],
       [0.0, 0.0, 0.0, 0.0, 0.0, 0.518000007, 0.0, 0.481999993]]
    case 7 =>
      [[0.541000009, 0.0, 0.0, 0.0, 0.0, 0.0, 0.0, 0.0],
       [0.0, 0.541000009, 0.0, 0.0, 0.0, 0.0, 0.0, 0.0],
       [0.0, 0.0, 0.541000009, 0.0, 0.0, 0.0, 0.0, 0.0],
       [0.0, 0.0, 0.0, 1.0, 0.0, 0.0, 0.0, 0.0],
       [0.0, 0.0, 0.0, 0.0, 0.287999988, 0.287999988, 0.0, 0.0],
       [0.0, 0.0, 0.0, 0.0, 0.458999991, 0.0, 0.541000009, 0.0],
       [0.0, 0.0, 0.0, 0.0, 0.0, 0.458999991, 0.0, 0.541000009]]
    case _ =>
      [[1.0, 0.0, 0.0, 0.0, 0.0, 0.0, 0.0, 0.0],
       [0.0, 1.0, 0.0, 0.0, 0.0, 0.0, 0.0, 0.0],
       [0.0, 0.0, 1.0, 0.0, 0.0, 0.0, 0.0, 0.0],
       [0.0, 0.0, 0.0, 1.0, 0.0, 0.0, 0.0, 0.0],
       [0.0, 0.0, 0.0, 0.0, 1.0, 0.0, 0.0, 0.0],
       [0.0, 0.0, 0.0, 0.0, 0.0, 1.0, 0.0, 0.0],
       [0.0, 0.0, 0.0, 0.0, 0.0, 0.0, 1.0, 0.0],
       [0.0, 0.0, 0.0, 0.0, 0.0, 0.0, 0.0, 1.0]]
  }

  // ----- what can be read off the tables -----

  lemma LeveledFrom1(to: nat)
    requires 1 <= to <= 8 && to != 1
    ensures Leveled(From1(to), 1, to)
  {
  }

  lemma KeptFrom1(to: nat)
    requires 1 <= to <= 8 && to != 1
    ensures Kept(From1(to), 1, to)
  {
  }

  lemma SymmetricFrom1(to: nat)
    requires 1 <= to <= 8 && to != 1
    ensures Symmetric(From1(to), 1, to)
  {
  }

  lemma InPlaceFrom1(to: nat)
    requires 1 <= to <= 8 && to != 1
    ensures InPlace(From1(to), 1, to)
  {
  }

  lemma LeveledFrom2(to: nat)
    requires 1 <= to <= 8 && to != 2
    ensures Leveled(From2(to), 2, to)
  {
  }

  lemma KeptFrom2(to: nat)
    requires 1 <= to <= 8 && to != 2
    ensures Kept(From2(to), 2, to)
  {
  }

  lemma SymmetricFrom2(to: nat)
    requires 1 <= to <= 8 && to != 2
    ensures Symmetric(From2(to), 2, to)
  {
  }

  lemma AllPlayFrom2(to: nat)
    requires 1 <= to <= 8 && to != 2
    ensures AllPlay(From2(to), 2, to)
  {
  }

  lemma InPlaceFrom2(to: nat)
    requires 1 <= to <= 8 && to != 2
    ensures InPlace(From2(to), 2, to)
  {
  }

  lemma LeveledFrom3(to: nat)
    requires 1 <= to <= 8 && to != 3
    ensures Leveled(From3(to), 3, to)
  {
  }

  lemma KeptFrom3(to: nat)
    requires 1 <= to <= 8 && to != 3
    ensures Kept(From3(to), 3, to)
  {
  }

  lemma SymmetricFrom3(to: nat)
    requires 1 <= to <= 8 && to != 3
    ensures Symmetric(From3(to), 3, to)
  {
  }

  lemma AllPlayFrom3(to: nat)
    requires 1 <= to <= 8 && to != 3
    ensures AllPlay(From3(to), 3, to)
  {
  }

  lemma InPlaceFrom3(to: nat)
    requires 1 <= to <= 8 && to != 3
    ensures InPlace(From3(to), 3, to)
  {
  }

  lemma LeveledFrom4(to: nat)
    requires 1 <= to <= 8 && to != 4
    ensures Leveled(From4(to), 4, to)
  {
  }

  lemma KeptFrom4(to: nat)
    requires 1 <= to <= 8 && to != 4
    ensures Kept(From4(to), 4, to)
  {
  }

  lemma SymmetricFrom4(to: nat)
    requires 1 <= to <= 8 && to != 4
    ensures Symmetric(From4(to), 4, to)
  {
  }

  lemma AllPlayFrom4(to: nat)
    requires 1 <= to <= 8 && to != 4
    ensures AllPlay(From4(to), 4, to)
  {
  }

  lemma InPlaceFrom4(to: nat)
    requires 1 <= to <= 8 && to != 4
    ensures InPlace(From4(to), 4, to)
  {
  }

  lemma LeveledFrom5(to: nat)
    requires 1 <= to <= 8 && to != 5
    ensures Leveled(From5(to), 5, to)
  {
  }

  lemma KeptFrom5(to: nat)
    requires 1 <= to <= 8 && to != 5
    ensures Kept(From5(to), 5, to)
  {
  }

  lemma SymmetricFrom5(to: nat)
    requires 1 <= to <= 8 && to != 5
    ensures Symmetric(From5(to), 5, to)
  {
  }

  lemma AllPlayFrom5(to: nat)
    requires 1 <= to <= 8 && to != 5
    ensures AllPlay(From5(to), 5, to)
  {
  }

  lemma InPlaceFrom5(to: nat)
    requires 1 <= to <= 8 && to != 5
    ensures InPlace(From5(to), 5, to)
  {
  }

  lemma LeveledFrom6(to: nat)
    requires 1 <= to <= 8 && to != 6
    ensures Leveled(From6(to), 6, to)
  {
  }

  lemma KeptFrom6(to: nat)
    requires 1 <= to <= 8 && to != 6
    ensures Kept(From6(to), 6, to)
  {
  }

  lemma SymmetricFrom6(to: nat)
    requires 1 <= to <= 8 && to != 6
    ensures Symmetric(From6(to), 6, to)
  {
  }

  lemma AllPlayFrom6(to: nat)
    requires 1 <= to <= 8 && to != 6
    ensures AllPlay(From6(to), 6, to)
  {
  }

  lemma InPlaceFrom6(to: nat)
    requires 1 <= to <= 8 && to != 6
    ensures InPlace(From6(to), 6, to)
  {
  }

  lemma LeveledFrom7(to: nat)
    requires 1 <= to <= 8 && to != 7
    ensures Leveled(From7(to), 7, to)
  {
  }

  lemma KeptFrom7(to: nat)
    requires 1 <= to <= 8 && to != 7
    ensures Kept(From7(to), 7, to)
  {
  }

  lemma SymmetricFrom7(to: nat)
    requires 1 <= to <= 8 && to != 7
    ensures Symmetric(From7(to), 7, to)
  {
  }

  lemma AllPlayFrom7(to: nat)
    requires 1 <= to <= 8 && to != 7
    ensures AllPlay(From7(to), 7, to)
  {
  }

  lemma SidedFrom7(to: nat)
    requires 1 <= to <= 8 && to != 7
    ensures Sided(From7(to), 7, to)
  {
  }

  lemma InPlaceFrom7(to: nat)
    requires 1 <= to <= 8 && to != 7
    ensures InPlace(From7(to), 7, to)
  {
    SidedFrom7(to);
  }

  lemma LeveledFrom8(to: nat)
    requires 1 <= to <= 8 && to != 8
    ensures Leveled(From8(to), 8, to)
  {
  }

  lemma KeptFrom8(to: nat)
    requires 1 <= to <= 8 && to != 8
    ensures Kept(From8(to), 8, to)
  {
  }

  lemma SymmetricFrom8(to: nat)
    requires 1 <= to <= 8 && to != 8
    ensures Symmetric(From8(to), 8, to)
  {
  }

  lemma AllPlayFrom8(to: nat)
    requires 1 <= to <= 8 && to != 8
    ensures AllPlay(From8(to), 8, to)
  {
  }

  lemma SidedFrom8(to: nat)
    requires 1 <= to <= 8 && to != 8
    ensures Sided(From8(to), 8, to)
  {
  }

  lemma InPlaceFrom8(to: nat)
    requires 1 <= to <= 8 && to != 8
    ensures InPlace(From8(to), 8, to)
  {
    SidedFrom8(to);
  }

  lemma CoveredFrom1(to: nat)
    requires 1 <= to <= 8 && to != 1
    ensures Covered(From1(to), 1, to)
  {
  }

  lemma CoveredFrom2(to: nat)
    requires 1 <= to <= 8 && to != 2
    ensures Covered(From2(to), 2, to)
  {
  }

  lemma CoveredFrom3(to: nat)
    requires 1 <= to <= 8 && to != 3
    ensures Covered(From3(to), 3, to)
  {
    if to == 4 {
      assert From3(to)[0][2] != 0.0 && From3(to)[1][2] != 0.0;
    }
  }

  lemma CoveredFrom4(to: nat)
    requires 1 <= to <= 8 && to != 4
    ensures Covered(From4(to), 4, to)
  {
  }

  lemma CoveredFrom5(to: nat)
    requires 1 <= to <= 8 && to != 5
    ensures Covered(From5(to), 5, to)
  {
    if to == 4 {
      assert From5(to)[0][2] != 0.0 && From5(to)[1][2] != 0.0;
    }
  }

  lemma CoveredFrom6(to: nat)
    requires 1 <= to <= 8 && to != 6
    ensures Covered(From6(to), 6, to)
  {
    if to == 7 {
      assert From6(to)[4][5] != 0.0 && From6(to)[6][5] != 0.0;
    }
  }

  lemma CoveredFrom7(to: nat)
    requires 1 <= to <= 8 && to != 7
    ensures Covered(From7(to), 7, to)
  {
    if to == 6 {
      assert From7(to)[4][4] != 0.0 && From7(to)[5][4] != 0.0;
    }
  }

  lemma CoveredFrom8To7()
    ensures Covered(From8(7), 8, 7)
  {
    assert From8(7)[4][4] != 0.0 && From8(7)[5][4] != 0.0;
    assert From8(7)[4][5] != 0.0 && From8(7)[6][5] != 0.0;
  }

  lemma CoveredFrom8(to: nat)
    requires 1 <= to <= 8 && to != 8
    ensures Covered(From8(to), 8, to)
  {
    if to == 7 {
      CoveredFrom8To7();
    }
  }

  /** Every table that the generator uses is faithful. */
  lemma TablesAreFaithful(from: nat, to: nat)
    requires 1 <= from <= 8 && 1 <= to <= 8 && from != to
    ensures Faithful(ConversionMatrix(from, to), from, to)
  {
    match from {
      case 1 => LeveledFrom1(to); KeptFrom1(to); SymmetricFrom1(to); InPlaceFrom1(to);
      case 2 => LeveledFrom2(to); KeptFrom2(to); SymmetricFrom2(to); AllPlayFrom2(to); InPlaceFrom2(to);
      case 3 => LeveledFrom3(to); KeptFrom3(to); SymmetricFrom3(to); AllPlayFrom3(to); InPlaceFrom3(to);
      case 4 => LeveledFrom4(to); KeptFrom4(to); SymmetricFrom4(to); AllPlayFrom4(to); InPlaceFrom4(to);
      case 5 => LeveledFrom5(to); KeptFrom5(to); SymmetricFrom5(to); AllPlayFrom5(to); InPlaceFrom5(to);
      case 6 => LeveledFrom6(to); KeptFrom6(to); SymmetricFrom6(to); AllPlayFrom6(to); InPlaceFrom6(to);
      case 7 => LeveledFrom7(to); KeptFrom7(to); SymmetricFrom7(to); AllPlayFrom7(to); InPlaceFrom7(to);
      case _ => LeveledFrom8(to); KeptFrom8(to); SymmetricFrom8(to); AllPlayFrom8(to); InPlaceFrom8(to);
    }
  }

  /** No coefficient is negative and no output adds up to more than full scale; up
      to 4.1 the front outputs add up to full scale. */
  lemma NoOutputIsTooLoud(from: nat, to: nat)
    requires 1 <= from <= 8 && 1 <= to <= 8 && from != to
    ensures var m := ConversionMatrix(from, to);
            && Shaped(m, from, to)
            && (forall j: nat, i: nat :: j < to && i < from ==> m[j][i] >= 0.0)
            && (forall j: nat :: j < to ==> RowTotal(m, j) <= 1.002)
            && (to <= 5 ==> RowTotal(m, 0) >= 0.999)
  {
    TablesAreFaithful(from, to);
    var m := ConversionMatrix(from, to);
    forall j: nat, i: nat | j < to && i < from
      ensures m[j][i] >= 0.0
    {
      NonNegative(m, from, to, j, i);
    }
    forall j: nat | j < to
      ensures RowTotal(m, j) <= 1.002
    {
      assert NotLouder(m, j);
    }
  }

  /** Every input reaches some output, and all of them together take at least
      what an even mix of the inputs would take. */
  lemma NoInputIsLost(from: nat, to: nat, i: nat)
    requires 1 <= from <= 8 && 1 <= to <= 8 && from != to && i < from
    ensures var m := ConversionMatrix(from, to);
            && Shaped(m, from, to)
            && (exists j: nat :: j < to && m[j][i] > 0.0)
            && from as real * ColumnTotal(m, i) >= 1.0
  {
    TablesAreFaithful(from, to);
    Reaches(ConversionMatrix(from, to), from, to, i);
    assert NotLost(ConversionMatrix(from, to), from, i);
  }

  /** Exchanging left and right in the inputs exchanges left and right in the
      outputs, and a left output takes at least as much from a left input as
      from the right one. */
  lemma SidesAreAlike(from: nat, to: nat, j: nat, i: nat)
    requires 1 <= from <= 8 && 1 <= to <= 8 && from != to && j < to && i < from
    ensures var m := ConversionMatrix(from, to);
            && Shaped(m, from, to)
            && m[Mirror(to, j)][Mirror(from, i)] == m[j][i]
            && (IsLeft(Layout(to)[j]) && IsLeft(Layout(from)[i]) ==> m[j][i] >= m[j][Mirror(from, i)])
  {
    TablesAreFaithful(from, to);
    SymmetricAt(ConversionMatrix(from, to), from, to, j, i);
    if IsLeft(Layout(to)[j]) && IsLeft(Layout(from)[i]) {
      SidedAt(ConversionMatrix(from, to), from, to, j, i);
    }
  }

  /** Where both layouts have a speaker, it keeps its place. */
  lemma SpeakersKeepTheirPlaces(from: nat, to: nat, s: Speaker)
    requires 2 <= from <= 8 && 1 <= to <= 8 && from != to
    ensures var m := ConversionMatrix(from, to);
            Shaped(m, from, to) && HasPlace(m, from, to, s)
  {
    TablesAreFaithful(from, to);
    SpeakerHasPlace(ConversionMatrix(from, to), from, to, s);
  }

  /** Every converter that the generator writes may run in place. */
  lemma TablesAreSafe(from: nat, to: nat)
    requires 1 <= from <= 8 && 1 <= to <= 8 && from != to
    ensures Safe(Flat(Flatten(ConversionMatrix(from, to)), from), from, to)
  {
    match from {
      case 1 => CoveredFrom1(to);
      case 2 => CoveredFrom2(to);
      case 3 => CoveredFrom3(to);
      case 4 => CoveredFrom4(to);
      case 5 => CoveredFrom5(to);
      case 6 => CoveredFrom6(to);
      case 7 => CoveredFrom7(to);
      case _ => CoveredFrom8(to);
    }
    CoveredIsSafe(ConversionMatrix(from, to), from, to);
  }

  /** What the library does with the generated code: write the converter of a
      channel pair from its table, and run it in the buffer that holds the input.
      Samples at full scale come out at full scale. */
  method ConvertInPlace(mem: array<real>, from: nat, to: nat, base: nat, frames: nat)
    requires 1 <= from <= 8 && 1 <= to <= 8 && from != to
    requires At(base, frames, from) <= mem.Length && At(base, frames, to) <= mem.Length
    modifies mem
    ensures var c := Flat(Flatten(ConversionMatrix(from, to)), from);
            Converted(c, from, to, base, base, old(mem[..]), mem[..], 0, frames)
    ensures Within(old(mem[..]), base, At(base, frames, from), 1.0) ==>
              Within(mem[..], base, At(base, frames, to), 1.002)
  {
    TablesAreSafe(from, to);
    ghost var mem0 := mem[..];
    var table := Flatten(ConversionMatrix(from, to));
    var _, converter := WriteConverter(table, from, to);
    RunConverter(mem, converter, Flat(table, from), base, base, frames);
    if Within(mem0, base, At(base, frames, from), 1.0) {
      TablesAreFaithful(from, to);
      BufferWithin(ConversionMatrix(from, to), from, to, base, mem0, mem[..], frames);
    }
  }
}
