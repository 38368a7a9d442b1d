/** The wheel state of the cipher: a list of integers of which the first
    three are the wheels w0, w1 and w2.  The values are unbounded and may
    go negative; the functions here are the pure rules that the engine's
    methods apply to its `wheels` field. */
module Wheels {

  /** A wheel list the engine can work with: the source indexes positions
      0, 1 and 2, and ignores any further entries. */
  predicate HasWheels(w: seq<int>) {
    |w| >= 3
  }

  /** The offset of the current wheel position: 2*w0 - w1 + w2 taken modulo
      26 with a non-negative remainder (Python's `%` with a positive modulus
      agrees with Dafny's `%`). */
  function Offset(w: seq<int>): (r: int)
    requires HasWheels(w)
    ensures 0 <= r < 26
    ensures (2 * w[0] - w[1] + w[2] - r) % 26 == 0
  {
    (2 * w[0] - w[1] + w[2]) % 26
  }

  /** The shift actually applied to a letter: the offset, except that an
      offset of 0 becomes 1 (Python's `offset or 1`). */
  function Step(offset: int): (s: int)
    ensures s != 0
    ensures offset != 0 ==> s == offset
    ensures offset == 0 ==> s == 1
    ensures 0 <= offset < 26 ==> 1 <= s < 26
  {
    if offset != 0 then offset else 1
  }

  /** One advance of the wheels, driven by the count `n` of letters
      substituted so far in the line. */
  function Advance(w: seq<int>, n: int): (r: seq<int>)
    requires HasWheels(w)
    ensures |r| == |w| && r[3..] == w[3..]
    // w0 always lands in 1..8, and on that band it counts up and wraps 8 -> 1
    ensures 1 <= r[0] <= 8
    ensures 1 <= w[0] < 8 ==> r[0] == w[0] + 1
    ensures w[0] == 8 ==> r[0] == 1
    // w1 doubles on an even count and drops by one on an odd count
    ensures n % 2 == 0 ==> r[1] == 2 * w[1]
    ensures n % 2 != 0 ==> r[1] == w[1] - 1
    // w2 forgets its old value: it is 10, 5 or 0 according to the count alone
    ensures r[2] in {0, 5, 10}
    ensures r[2] == 10 <==> n % 10 == 0
    ensures r[2] == 5 <==> n % 10 != 0 && n % 3 == 0
  {
    var w0 := w[0] % 8 + 1;
    var w1 := if n % 2 == 0 then w[1] * 2 else w[1] - 1;
    var w2 := if n % 10 == 0 then 10 else if n % 3 == 0 then 5 else 0;
    w[0 := w0][1 := w1][2 := w2]
  }

  /** Advancing twice with the same count (as a run of pass-through
      characters does) leaves w2 where the first advance put it, while w1
      keeps moving. */
  lemma AdvanceSameCountTwice(w: seq<int>, n: int)
    requires HasWheels(w)
    ensures Advance(Advance(w, n), n)[2] == Advance(w, n)[2]
    ensures n % 2 == 0 ==> Advance(Advance(w, n), n)[1] == 4 * w[1]
    ensures n % 2 != 0 ==> Advance(Advance(w, n), n)[1] == w[1] - 2
  {
  }

  /** Advancing through a list of counts, one advance per count. */
  function AdvanceAll(w: seq<int>, counts: seq<int>): (r: seq<int>)
    requires HasWheels(w)
    ensures |r| == |w| && r[3..] == w[3..]
    decreases |counts|
  {
    if counts == [] then w else AdvanceAll(Advance(w, counts[0]), counts[1..])
  }

  /** w0 depends only on how many advances were made, never on the counts:
      after k >= 1 advances it is (w0 + k - 1) mod 8 + 1, whatever value it
      started from. */
  lemma {:induction false} AdvanceAllFirstWheel(w: seq<int>, counts: seq<int>)
    requires HasWheels(w)
    requires counts != []
    ensures AdvanceAll(w, counts)[0] == (w[0] + |counts| - 1) % 8 + 1
    decreases |counts|
  {
    var v := Advance(w, counts[0]);
    if |counts| > 1 {
      AdvanceAllFirstWheel(v, counts[1..]);
      assert v[0] == w[0] % 8 + 1;
      ModEightShift(w[0], |counts| - 1);
    }
  }

  /** ((x mod 8) + 1 + k - 1) mod 8 == (x + k) mod 8, for the wrap rule. */
  lemma ModEightShift(x: int, k: int)
    ensures (x % 8 + 1 + k - 1) % 8 == (x + k) % 8
  {
  }
}
