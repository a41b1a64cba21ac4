/**
 Bit-serial feedback registers in general: a state of any type that takes in one message bit at a time.

 These facts need nothing of the state but the laws named in each lemma, so they are proved once here
 and used for the 32-bit remainder register of the frame check sequence.
 */
module BitFold {

  /** How a register steps with a zero bit, how to undo that, how values add, and the value of one bit. */
  datatype Register<!W> = Register(shift: W -> W, unshift: W -> W, plus: (W, W) -> W, one: W)
  {
    function Step(w: W, bit: bool): W {
      shift(if bit then plus(w, one) else w)
    }

    function Unstep(w: W, bit: bool): W {
      var u := unshift(w);
      if bit then plus(u, one) else u
    }
  }

  ghost predicate ShiftDistributes<W(!new)>(r: Register<W>) {
    forall u, v :: r.shift(r.plus(u, v)) == r.plus(r.shift(u), r.shift(v))
  }

  /** Adding one bit to both of two values leaves their sum as it was. */
  ghost predicate OnesCancel<W>(r: Register<W>, u: W, v: W) {
    r.plus(r.plus(u, r.one), r.plus(v, r.one)) == r.plus(u, v)
  }

  ghost predicate OneMovesLeft<W>(r: Register<W>, u: W, v: W) {
    r.plus(r.plus(u, r.one), v) == r.plus(r.plus(u, v), r.one)
  }

  ghost predicate OneMovesRight<W>(r: Register<W>, u: W, v: W) {
    r.plus(u, r.plus(v, r.one)) == r.plus(r.plus(u, v), r.one)
  }

  ghost predicate Additive<W(!new)>(r: Register<W>) {
    && ShiftDistributes(r)
    && (forall u, v :: OnesCancel(r, u, v))
    && (forall u, v :: OneMovesLeft(r, u, v))
    && (forall u, v :: OneMovesRight(r, u, v))
  }

  ghost predicate Reversible<W(!new)>(r: Register<W>) {
    && (forall u :: r.unshift(r.shift(u)) == u)
    && (forall u :: r.shift(r.unshift(u)) == u)
    && (forall u :: r.plus(r.plus(u, r.one), r.one) == u)
  }

  function Fold<W>(r: Register<W>, w: W, bits: seq<bool>): W
    decreases |bits|
  {
    if bits == [] then w else Fold(r, r.Step(w, bits[0]), bits[1..])
  }

  function Unfold<W>(r: Register<W>, w: W, bits: seq<bool>): W
    decreases |bits|
  {
    if bits == [] then w else r.Unstep(Unfold(r, w, bits[1..]), bits[0])
  }

  function Iterate<W>(f: W -> W, w: W, n: nat): W
    decreases n
  {
    if n == 0 then w else Iterate(f, f(w), n - 1)
  }

  function XorBits(a: seq<bool>, b: seq<bool>): (x: seq<bool>)
    requires |a| == |b|
    ensures |x| == |a|
    ensures forall i :: 0 <= i < |x| ==> (x[i] <==> a[i] != b[i])
  {
    seq(|a|, i requires 0 <= i < |a| => a[i] != b[i])
  }

  lemma {:induction false} FoldConcat<W>(r: Register<W>, w: W, a: seq<bool>, b: seq<bool>)
    ensures Fold(r, w, a + b) == Fold(r, Fold(r, w, a), b)
    decreases |a|
  {
    if a == [] {
      assert a + b == b;
    } else {
      assert (a + b)[1..] == a[1..] + b;
      FoldConcat(r, r.Step(w, a[0]), a[1..], b);
    }
  }

  lemma {:induction false} IterateAdds<W>(f: W -> W, w: W, m: nat, n: nat)
    ensures Iterate(f, Iterate(f, w, m), n) == Iterate(f, w, m + n)
    decreases m
  {
    if m == 0 {
    } else {
      IterateAdds(f, f(w), m - 1, n);
    }
  }

  lemma {:induction false} IterateIsAdditive<W(!new)>(r: Register<W>, u: W, v: W, n: nat)
    requires ShiftDistributes(r)
    ensures Iterate(r.shift, r.plus(u, v), n) == r.plus(Iterate(r.shift, u, n), Iterate(r.shift, v, n))
    decreases n
  {
    if n == 0 {
    } else {
      assert r.shift(r.plus(u, v)) == r.plus(r.shift(u), r.shift(v));
      IterateIsAdditive(r, r.shift(u), r.shift(v), n - 1);
    }
  }

  lemma StepIsLinear<W(!new)>(r: Register<W>, u: W, v: W, x: bool, y: bool)
    requires Additive(r)
    ensures r.Step(r.plus(u, v), x != y) == r.plus(r.Step(u, x), r.Step(v, y))
  {
    assert OnesCancel(r, u, v) && OneMovesLeft(r, u, v) && OneMovesRight(r, u, v);
    var p, q := if x then r.plus(u, r.one) else u, if y then r.plus(v, r.one) else v;
    assert r.shift(r.plus(p, q)) == r.plus(r.shift(p), r.shift(q));
  }

  ghost predicate Linear<W(!new)>(r: Register<W>) {
    forall u, v, x, y :: r.Step(r.plus(u, v), x != y) == r.plus(r.Step(u, x), r.Step(v, y))
  }

  lemma AdditiveIsLinear<W(!new)>(r: Register<W>)
    requires Additive(r)
    ensures Linear(r)
  {
    forall u, v, x, y
      ensures r.Step(r.plus(u, v), x != y) == r.plus(r.Step(u, x), r.Step(v, y))
    {
      StepIsLinear(r, u, v, x, y);
    }
  }

  /** A linear step makes the whole register linear in the state and the message together. */
  lemma {:induction false} FoldIsLinear<W(!new)>(r: Register<W>, u: W, v: W, a: seq<bool>, b: seq<bool>)
    requires |a| == |b| && Linear(r)
    ensures Fold(r, r.plus(u, v), XorBits(a, b)) == r.plus(Fold(r, u, a), Fold(r, v, b))
    decreases |a|
  {
    if a == [] {
    } else {
      assert r.Step(r.plus(u, v), a[0] != b[0]) == r.plus(r.Step(u, a[0]), r.Step(v, b[0]));
      assert XorBits(a, b)[1..] == XorBits(a[1..], b[1..]);
      FoldIsLinear(r, r.Step(u, a[0]), r.Step(v, b[0]), a[1..], b[1..]);
    }
  }

  lemma StepIsBijective<W(!new)>(r: Register<W>, w: W, bit: bool)
    requires Reversible(r)
    ensures r.Unstep(r.Step(w, bit), bit) == w
    ensures r.Step(r.Unstep(w, bit), bit) == w
  {
    assert r.unshift(r.shift(w)) == w && r.unshift(r.shift(r.plus(w, r.one))) == r.plus(w, r.one);
    assert r.plus(r.plus(r.unshift(w), r.one), r.one) == r.unshift(w);
  }

  /** A reversible register is, for every message, a bijection of the state with the inverse `Unfold`. */
  lemma {:induction false} FoldIsBijective<W(!new)>(r: Register<W>, w: W, bits: seq<bool>)
    requires Reversible(r)
    ensures Fold(r, Unfold(r, w, bits), bits) == w
    ensures Unfold(r, Fold(r, w, bits), bits) == w
    decreases |bits|
  {
    if bits == [] {
    } else {
      FoldIsBijective(r, w, bits[1..]);
      FoldIsBijective(r, r.Step(w, bits[0]), bits[1..]);
      StepIsBijective(r, Unfold(r, w, bits[1..]), bits[0]);
      StepIsBijective(r, w, bits[0]);
    }
  }

  /** The state with the unit of each set bit added in. */
  function Gather<W>(plus: (W, W) -> W, unit: nat -> W, w: W, bits: seq<bool>): W
    decreases |bits|
  {
    if bits == [] then w
    else
      var last := |bits| - 1;
      var sum := Gather(plus, unit, w, bits[..last]);
      if bits[last] then plus(sum, unit(last)) else sum
  }

  /**
   Feeding bits one at a time is adding them all in at once and then stepping with zero bits, provided
   `unit(n)` is the value that `n` zero steps turn into the value of one bit.
   */
  lemma {:induction false} FeedAtOnce<W(!new)>(r: Register<W>, unit: nat -> W, w: W, bits: seq<bool>)
    requires ShiftDistributes(r)
    requires forall n: nat :: n < |bits| ==> Iterate(r.shift, unit(n), n) == r.one
    ensures Fold(r, w, bits) == Iterate(r.shift, Gather(r.plus, unit, w, bits), |bits|)
    decreases |bits|
  {
    if bits == [] {
    } else {
      var last := |bits| - 1;
      var init, b := bits[..last], bits[last];
      assert bits == init + [b];
      FoldConcat(r, w, init, [b]);
      FeedAtOnce(r, unit, w, init);
      var sum := Gather(r.plus, unit, w, init);
      var before := Iterate(r.shift, sum, last);
      assert Fold(r, before, [b]) == r.Step(before, b);
      if b {
        IterateIsAdditive(r, sum, unit(last), last);
        IterateAdds(r.shift, r.plus(sum, unit(last)), last, 1);
      } else {
        IterateAdds(r.shift, sum, last, 1);
      }
    }
  }

  /** What the first bits add up to, given what each further bit adds. */
  lemma {:induction false} GatherIsSum<W(!new)>(
      plus: (W, W) -> W, unit: nat -> W, part: nat -> W, w: W, bits: seq<bool>)
    requires plus(w, part(0)) == w
    requires forall k: nat :: k < |bits| ==>
               plus(w, part(k + 1)) == if bits[k] then plus(plus(w, part(k)), unit(k)) else plus(w, part(k))
    ensures Gather(plus, unit, w, bits) == plus(w, part(|bits|))
    decreases |bits|
  {
    if bits == [] {
    } else {
      var last := |bits| - 1;
      GatherIsSum(plus, unit, part, w, bits[..last]);
      assert plus(w, part(last + 1))
             == if bits[last] then plus(plus(w, part(last)), unit(last)) else plus(w, part(last));
    }
  }

  /** Four equal runs of steps in a row. */
  lemma FourRuns<W>(f: W -> W, w0: W, w1: W, w2: W, w3: W, w4: W, n: nat)
    requires w1 == Iterate(f, w0, n) && w2 == Iterate(f, w1, n)
    requires w3 == Iterate(f, w2, n) && w4 == Iterate(f, w3, n)
    ensures w4 == Iterate(f, w0, 4 * n)
  {
    IterateAdds(f, w0, n, n);
    IterateAdds(f, w0, 2 * n, n);
    IterateAdds(f, w0, 3 * n, n);
  }
}
