/** Notions that several parts of the kernel share. */
module Common {

  /** A value that may be missing. */
  datatype Option<T> = None | Some(value: T)

  const PAGE_SIZE := 4096

  predicate PowerOfTwo(a: nat) {
    a == 1 || (a > 1 && a % 2 == 0 && PowerOfTwo(a / 2))
  }

  lemma Multiple(q: nat, a: nat)
    requires a > 0
    ensures (q * a) % a == 0
  {
    Remainder(q * a, a, q, 0);
  }

  /** Quotient and remainder are unique. */
  lemma Remainder(n: int, a: int, q: int, r: int)
    requires a > 0 && n == q * a + r && 0 <= r < a
    ensures n / a == q && n % a == r
  {
    var d := n / a - q;
    assert n == (n / a) * a + n % a;
    assert d * a == r - n % a;
    Scaled(d, a, 1);
    Scaled(-d, a, 1);
    assert (-d) * a == -(d * a);
  }

  lemma Scaled(n: int, a: nat, k: nat)
    ensures n >= k ==> n * a >= k * a
  {
  }

  lemma MultipleOf(m: nat, a: nat, b: nat)
    requires a > 0 && b > 0 && m % a == 0 && a % b == 0
    ensures m % b == 0
  {
    var q, k := m / a, a / b;
    assert m == q * a && a == k * b;
    assert q * (k * b) == (q * k) * b;
    Multiple(q * k, b);
  }

  /** Of two powers of two the smaller divides the larger. */
  lemma {:induction false} PowerDivides(a: nat, b: nat)
    requires PowerOfTwo(a) && PowerOfTwo(b) && a <= b
    ensures b % a == 0
    decreases a
  {
    if a > 1 {
      PowerDivides(a / 2, b / 2);
      Remainder(b, a, b / 2 / (a / 2), 0);
    }
  }

  /** Adding a multiple changes no remainder. */
  lemma AddMultiple(n: nat, m: nat, a: nat)
    requires a > 0 && m % a == 0
    ensures (m + n) % a == n % a
  {
    Remainder(m + n, a, m / a + n / a, n % a);
  }

  lemma Multiples(n: nat, m: nat, a: nat)
    requires a > 0 && m % a == 0
    ensures n * m % a == 0
  {
    var q := m / a;
    assert m == q * a;
    Remainder(n * m, a, n * q, 0);
  }

  lemma Powers()
    ensures PowerOfTwo(32) && PowerOfTwo(4096)
  {
    assert PowerOfTwo(2) && PowerOfTwo(4);
    assert PowerOfTwo(8) && PowerOfTwo(16);
    assert PowerOfTwo(32) && PowerOfTwo(64);
    assert PowerOfTwo(128) && PowerOfTwo(256);
    assert PowerOfTwo(512) && PowerOfTwo(1024);
    assert PowerOfTwo(2048);
  }

  /** A sequence with two of its elements exchanged. */
  function Exchange<T>(s: seq<T>, k: nat, l: nat): seq<T>
    requires k < |s| && l < |s|
  {
    s[k := s[l]][l := s[k]]
  }

  lemma ExchangePermutes<T>(s: seq<T>, k: nat, l: nat)
    requires k < |s| && l < |s|
    ensures multiset(Exchange(s, k, l)) == multiset(s)
  {
  }
}
