/**
 * download.go's findMax: the search for the number of pages of an online
 * score.  A probe f(n) reports whether page n exists, or fails; the search
 * doubles n from 4 while the probe answers true, then narrows [l, r] by
 * bisection until the two meet.
 */
module Download {
  import opened Results

  function Pow2(j: nat): (p: nat)
    ensures p >= 1 && p > j
  {
    if j == 0 then 1 else 2 * Pow2(j - 1)
  }

  /** The j-th probe of the doubling phase: 4, 8, 16, ... */
  function Doubling(j: nat): nat
  {
    4 * Pow2(j)
  }

  /**
   * findMax.  The doubling phase probes Doubling(0), Doubling(1), ... and
   * stops at the first probe that is not true; any probe error ends the
   * search at once with the probed index and that error, after no further
   * probes.  Otherwise the result k is a boundary of the probe: f(k) is
   * false, and k is 0 or f(k - 1) is true.
   *
   * The Go loop doubles for as long as the probe answers true; the ghost
   * `stop` names a doubling round at which it does not, so that the search
   * ends.  `probes` lists the probed indices in order, the first `rounds` of
   * them those of the doubling phase.
   */
  method FindMax<E>(f: int -> Result<bool, E>, ghost stop: nat)
      returns (k: int, err: Option<E>, ghost probes: seq<int>, ghost rounds: nat)
    requires f(Doubling(stop)) != Ok(true)
    ensures 1 <= rounds <= |probes| && rounds <= stop + 1
    ensures forall j :: 0 <= j < rounds ==> probes[j] == Doubling(j)
    ensures forall j :: 0 <= j < rounds - 1 ==> f(Doubling(j)) == Ok(true)
    ensures f(Doubling(rounds - 1)) != Ok(true)
    ensures forall q :: 0 <= q < |probes| - 1 ==> f(probes[q]).Ok?
    ensures err.Some? ==> k == probes[|probes| - 1] && f(k) == Err(err.value)
    ensures err.None? ==> f(probes[|probes| - 1]).Ok? && k in probes
    ensures err.None? ==> k >= 0 && f(k) == Ok(false) && (k == 0 || f(k - 1) == Ok(true))
  {
    probes, rounds := [], 0;
    var n := 4;
    while true
      invariant rounds <= stop && n == Doubling(rounds) && |probes| == rounds
      invariant forall j :: 0 <= j < rounds ==> probes[j] == Doubling(j) && f(Doubling(j)) == Ok(true)
      decreases stop - rounds
    {
      var res := f(n);
      probes := probes + [n];
      if res.Err? {
        return n, Some(res.error), probes, rounds + 1;
      }
      if res.value {
        n, rounds := n * 2, rounds + 1;
      } else {
        break;
      }
    }
    rounds := rounds + 1;
    var l, r, i := 0, n, n / 2;
    while true
      invariant 0 <= l <= i < r
      invariant f(r) == Ok(false) && r in probes
      invariant l == 0 || f(l - 1) == Ok(true)
      invariant rounds <= |probes| && forall j :: 0 <= j < rounds ==> probes[j] == Doubling(j)
      invariant forall q :: 0 <= q < |probes| ==> f(probes[q]).Ok?
      decreases r - l
    {
      var res := f(i);
      probes := probes + [i];
      if res.Err? {
        return i, Some(res.error), probes, rounds;
      }
      if res.value {
        l := i + 1;
      } else {
        r := i;
      }
      i := (r + l) / 2;
      if r <= l {
        break;
      }
    }
    return i, None, probes, rounds;
  }

  /**
   * For the probe "page n exists" of a score with total pages, findMax
   * returns total without an error: the smallest index whose probe is false.
   */
  method FindMaxOfThreshold(total: nat) returns (k: int, err: Option<string>)
    ensures err == None && k == total
  {
    var f := (n: int) => Ok(n < total);
    ghost var probes: seq<int>, rounds: nat;
    k, err, probes, rounds := FindMax<string>(f, total);
  }
}
