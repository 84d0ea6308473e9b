/** Shared vocabulary: bytes, optional values, concatenation of pieces, and remainders. */
module Common {

  newtype byte = x: int | 0 <= x < 256

  datatype Option<+T> = None | Some(value: T)

  /** The pieces joined in order. */
  function Flatten<T>(pieces: seq<seq<T>>): seq<T> {
    if pieces == [] then [] else pieces[0] + Flatten(pieces[1..])
  }

  lemma Associative<T>(a: seq<T>, b: seq<T>, c: seq<T>)
    ensures a + (b + c) == (a + b) + c
  {}

  lemma {:induction false} FlattenAppend<T>(left: seq<seq<T>>, right: seq<seq<T>>)
    ensures Flatten(left + right) == Flatten(left) + Flatten(right)
  {
    if left == [] {
      assert left + right == right;
    } else {
      FlattenAppend(left[1..], right);
      assert (left + right)[1..] == left[1..] + right;
      Associative(left[0], Flatten(left[1..]), Flatten(right));
    }
  }

  lemma FlattenSingle<T>(piece: seq<T>)
    ensures Flatten([piece]) == piece
  {
    assert [piece][1..] == [];
  }

  lemma FlattenSnoc<T>(pieces: seq<seq<T>>, last: seq<T>)
    ensures Flatten(pieces + [last]) == Flatten(pieces) + last
  {
    FlattenAppend(pieces, [last]);
    FlattenSingle(last);
  }

  /** Quotient and remainder are determined. */
  lemma RemainderUnique(x: int, m: int, q: int, r: int)
    requires m > 0 && x == q * m + r && 0 <= r < m
    ensures x % m == r && x / m == q
  {
    var q' := x / m;
    assert x == m * q' + x % m;
    SmallMultiple(m, q' - q, r - x % m);
  }

  lemma SmallMultiple(m: int, k: int, d: int)
    requires m > 0 && m * k == d && -m < d < m
    ensures k == 0
  {
    Grows(m, k);
  }

  lemma Grows(m: int, k: int)
    requires m > 0
    ensures k >= 1 ==> m * k >= m
    ensures k <= -1 ==> m * k <= -m
  {}

  /** Stores elements one after the other, from a position on. */
  method Put<T>(target: array<T>, at: nat, elements: seq<T>)
    requires at + |elements| <= target.Length
    modifies target
    ensures target[..at + |elements|] == old(target[..at]) + elements
    ensures target[at + |elements|..] == old(target[at + |elements|..])
  {
    for k := 0 to |elements|
      invariant target[..at + k] == old(target[..at]) + elements[..k]
      invariant target[at + |elements|..] == old(target[at + |elements|..])
    {
      target[at + k] := elements[k];
    }
  }
}
