/** Powers of two, and facts about products and permutations, that several modules need. */
module Basics {

  ghost function Pow2(j: nat): (p: nat)
    ensures p > j
  {
    if j == 0 then 1 else 2 * Pow2(j - 1)
  }

  lemma TimesSum(a: int, b: int, c: int)
    ensures (a + b) * c == a * c + b * c
  {
  }

  lemma TimesNat(a: nat, b: nat)
    ensures a * b >= 0
  {
  }

  lemma TimesMonotone(c: nat, q: nat, b: nat)
    requires c <= q
    ensures c * b <= q * b
  {
    TimesSum(c, q - c, b);
    TimesNat(q - c, b);
  }

  lemma RemainderIs(n: nat, m: nat, q: nat, r: nat)
    requires n == q * m + r && r < m
    ensures n % m == r
  {
    var p := n / m;
    assert n == p * m + n % m;
    if p < q { TimesMonotone(p + 1, q, m); TimesSum(p, 1, m); }
    if q < p { TimesMonotone(q + 1, p, m); TimesSum(q, 1, m); }
  }

  /** Every element of a permutation occurs in what it permutes. */
  lemma PermutedElement<T>(a: seq<T>, b: seq<T>, i: nat) returns (k: nat)
    requires multiset(a) == multiset(b) && i < |a|
    ensures k < |b| && b[k] == a[i]
  {
    assert a[i] in multiset(b);
    k :| 0 <= k < |b| && b[k] == a[i];
  }

  lemma ConcatCounts<T>(a: seq<T>, b: seq<T>)
    ensures multiset(a + b) == multiset(a) + multiset(b)
  {
  }

  /** A sequence without its element at q. */
  ghost function Without<T>(s: seq<T>, q: nat): seq<T>
    requires q < |s|
  {
    s[..q] + s[q + 1..]
  }

  lemma WithoutLast<T>(s: seq<T>, q: nat)
    requires q < |s|
    ensures var n := |s| - 1;
            && s == s[..n] + [s[n]] && |Without(s, q)| == n
            && (q == n ==> Without(s, q) == s[..n])
            && (q < n ==> |Without(s[..n], q)| == n - 1 && Without(s, q) == Without(s[..n], q) + [s[n]])
  {
  }

  lemma SplitAround<T>(s: seq<T>, q: nat)
    requires q < |s|
    ensures s == s[..q] + [s[q]] + s[q + 1..]
  {
  }

  lemma WithoutCounts<T>(s: seq<T>, q: nat)
    requires q < |s|
    ensures multiset(s) == multiset(Without(s, q)) + multiset{s[q]}
  {
    SplitAround(s, q);
  }

  lemma CancelOne<T>(x: multiset<T>, y: multiset<T>, e: T)
    requires x + multiset{e} == y + multiset{e}
    ensures x == y
  {
    assert x == x + multiset{e} - multiset{e};
    assert y == y + multiset{e} - multiset{e};
  }

  /** Taking equal elements out of two permutations leaves permutations. */
  lemma WithoutPermuted<T>(a: seq<T>, b: seq<T>, n: nat, q: nat)
    requires multiset(a) == multiset(b) && n < |a| && q < |b| && a[n] == b[q]
    ensures multiset(Without(a, n)) == multiset(Without(b, q))
  {
    hide Without;
    WithoutCounts(a, n);
    WithoutCounts(b, q);
    CancelOne(multiset(Without(a, n)), multiset(Without(b, q)), a[n]);
  }

  lemma MiddleOut<T>(all: seq<T>, rest: seq<T>, x: seq<T>, m: seq<T>, y: seq<T>)
    requires all == x + m + y && rest == x + y
    ensures multiset(all) == multiset(rest) + multiset(m)
  {
  }
}
