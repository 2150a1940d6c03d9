/** Small types shared by the other modules. */
module Common {
  type byte = x: int | 0 <= x < 256

  /** 2 to the 64. */
  const U64: nat := 0x1_0000_0000_0000_0000

  datatype Option<+T> = None | Some(value: T)

  /** std::max(0, x). */
  function Max0(x: int): (r: nat) { if x < 0 then 0 else x }

  /** Some element of a set. */
  method AnyOf<T>(s: set<T>) returns (x: T)
    requires s != {}
    ensures x in s
  {
    x :| x in s;
  }

  lemma Witness<T>(s: set<T>) returns (x: T)
    requires s != {}
    ensures x in s
  {
    x :| x in s;
  }

  lemma ModOnce(x: nat, m: nat)
    requires x < 2 * m
    ensures x % m == if x < m then x else x - m
  {
    var q := x / m;
    assert x == q * m + x % m;
    if q >= 2 { MulMonotonic(2, q, m); }
  }

  lemma MulMonotonic(a: nat, b: nat, m: nat)
    requires a <= b
    ensures a * m <= b * m
  {
  }

  lemma QuotientBound(a: nat, b: nat)
    requires b > 0
    ensures 0 <= a / b <= a
  {
    var q := a / b;
    assert a == q * b + a % b;
    MulMonotonic(1, b, q);
  }

  lemma MulAssociative(a: int, b: int, c: int)
    ensures a * (b * c) == (a * b) * c
  {
  }

  /** Multiplication by name: proofs about sequences hide its definition, so
      that only the lemmas about numbers see products. */
  ghost function Mul(a: int, b: int): int { a * b }

  lemma MulDef(a: int, b: int)
    ensures Mul(a, b) == a * b
  {
  }

  /** What a reader of lists gives when the first part v is already read. */
  ghost function Joined<T, R>(v: seq<T>, r: Option<(seq<T>, R)>): Option<(seq<T>, R)> {
    match r
    case None => None
    case Some((w, rest)) => Some((v + w, rest))
  }

  lemma JoinedStep<T, R>(v: seq<T>, w: seq<T>, r: Option<(seq<T>, R)>)
    ensures Joined([], r) == r && Joined(v + w, r) == Joined(v, Joined(w, r))
  {
    if r.Some? {
      assert [] + r.value.0 == r.value.0;
      assert (v + w) + r.value.0 == v + (w + r.value.0);
    }
  }
}
