/** Machine words and cyclic slot arithmetic shared by the other modules. */
module Words {
  type Uint32 = x: int | 0 <= x < 0x1_0000_0000

  /** An untyped C pointer, as the hash table stores it; 0 is NULL. */
  type Ptr = nat

  function Pow2(k: nat): (r: nat)
    ensures r > 0
  {
    if k == 0 then 1 else 2 * Pow2(k - 1)
  }

  lemma {:induction false} Pow2Adds(j: nat, k: nat)
    ensures Pow2(j + k) == Pow2(j) * Pow2(k)
  {
    if j > 0 {
      Pow2Adds(j - 1, k);
    }
  }

  /** `(i + 1) & mask`: the slot after `i` in a table of `n` slots. */
  function Next(i: nat, n: nat): (r: nat)
    requires i < n
    ensures r < n
    ensures r == if i + 1 == n then 0 else i + 1
  {
    (i + 1) % n
  }

  /** The slot before `i`. */
  function Prev(i: nat, n: nat): (r: nat)
    requires i < n
    ensures r < n && Next(r, n) == i
  {
    if i == 0 then n - 1 else i - 1
  }

  /** `get_probe_length`: how many steps forward lead from `home` to `i`. */
  function Distance(home: nat, i: nat, n: nat): (r: nat)
    requires home < n && i < n
    ensures r < n
  {
    if i < home then n - home + i else i - home
  }

  /** The slot `d` steps before `i`. */
  function Back(i: nat, d: nat, n: nat): (r: nat)
    requires i < n && d <= n
    ensures r < n
    ensures d < n ==> Distance(r, i, n) == d
  {
    if d <= i then i - d else i + n - d
  }

  /** A step forward comes one closer to any other slot. */
  lemma NextIsCloser(i: nat, goal: nat, n: nat)
    requires i < n && goal < n && i != goal
    ensures Distance(Next(i, n), goal, n) == Distance(i, goal, n) - 1
  {
  }
}
