/** Definitions shared by the models: optional values, pages, sequences without repeats, sets of
    consecutive numbers, and memory that agrees. */
module Common {

  datatype Option<T> = None | Some(value: T)

  const PAGE_SIZE: nat := 4096

  function RoundDown(a: nat): nat {
    a / PAGE_SIZE * PAGE_SIZE
  }

  function RoundUp(a: nat): nat {
    (a + PAGE_SIZE - 1) / PAGE_SIZE * PAGE_SIZE
  }

  predicate NoDup(s: seq<nat>) {
    forall i, j :: 0 <= i < j < |s| ==> s[i] != s[j]
  }

  /** The `n` numbers from `lo` on. */
  function Range(lo: nat, n: nat): (r: set<nat>)
    ensures |r| == n && forall i: nat :: i in r <==> lo <= i < lo + n
  {
    if n == 0 then {} else Range(lo, n - 1) + {lo + n - 1}
  }

  lemma SmallMultiple(x: int, m: int)
    requires m > 0 && -m < x * m < m
    ensures x * m == 0
  {
    assert x >= 1 ==> x * m >= m;
    assert x <= -1 ==> x * m <= -m;
  }

  lemma ModAdd(a: nat, m: nat)
    requires m > 0
    ensures (a + m) % m == a % m
  {
    var q0, q1 := a / m, (a + m) / m;
    assert a == q0 * m + a % m && a + m == q1 * m + (a + m) % m;
    assert (q1 - 1 - q0) * m == q1 * m - m - q0 * m;
    SmallMultiple(q1 - 1 - q0, m);
  }

  lemma {:induction false} MultipleMod(q: nat, m: nat, r: nat)
    requires m > 0
    ensures (q * m + r) % m == r % m
    decreases q
  {
    if q > 0 {
      MultipleMod(q - 1, m, r);
      var a := (q - 1) * m + r;
      assert q * m + r == a + m;
      ModAdd(a, m);
    }
  }

  /** The two memories agree at address `a`. */
  ghost predicate SameAt<T>(m0: map<nat, T>, m1: map<nat, T>, a: nat) {
    (a in m0 <==> a in m1) && (a in m0 ==> m0[a] == m1[a])
  }
}
