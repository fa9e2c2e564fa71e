/**
 Unsigned numbers written as sequences of base-256 digits, most significant
 first. This is the arithmetic reading of a packed version word: its bytes are
 the digits, so comparing words as numbers compares their digit sequences
 lexicographically.
 */
module Base256 {

  /** One base-256 digit: the numeric value of a byte. */
  type Digit = d: int | 0 <= d < 256

  /** 256 to the power `n`. */
  function Pow256(n: nat): nat {
    if n == 0 then 1 else 256 * Pow256(n - 1)
  }

  /** The number whose base-256 digits, most significant first, are `ds`. */
  function Value(ds: seq<Digit>): nat {
    if |ds| == 0 then 0 else ds[0] * Pow256(|ds| - 1) + Value(ds[1..])
  }

  /** Lexicographic order on digit sequences of the same length. */
  predicate LexLess(xs: seq<Digit>, ys: seq<Digit>)
    requires |xs| == |ys|
  {
    && |xs| > 0
    && (|| xs[0] < ys[0]
        || (xs[0] == ys[0] && LexLess(xs[1..], ys[1..])))
  }

  /** Lexicographic order looks at the first digits, then at the rest. */
  lemma LexLessCons(x: Digit, y: Digit, xs: seq<Digit>, ys: seq<Digit>)
    requires |xs| == |ys|
    ensures LexLess([x] + xs, [y] + ys) <==> x < y || (x == y && LexLess(xs, ys))
  {
    assert ([x] + xs)[1..] == xs;
    assert ([y] + ys)[1..] == ys;
  }

  /** Multiplying by the same factor keeps order. */
  lemma MulLeft(a: nat, b: nat, p: nat)
    requires a <= b
    ensures a * p <= b * p
  {
  }

  /** A leading digit outweighs everything after it: a smaller first digit
      gives a smaller number, whatever follows. */
  lemma LeadingDigitDominates(x: Digit, y: Digit, p: nat, u: nat, w: nat)
    requires x < y && u < p
    ensures x * p + u < y * p + w
  {
    MulLeft(x + 1, y, p);
    assert (x + 1) * p == x * p + p;
  }

  /** `n` digits hold a number below 256^n. */
  lemma {:induction false} ValueBound(ds: seq<Digit>)
    ensures Value(ds) < Pow256(|ds|)
  {
    if |ds| > 0 {
      var p := Pow256(|ds| - 1);
      ValueBound(ds[1..]);
      MulLeft(ds[0], 255, p);
      assert 255 * p + p == 256 * p;
    }
  }

  /** Digit sequences of one length are in lexicographic order exactly when
      the numbers they write are in numeric order. */
  lemma {:induction false} LexLessIsNumericLess(xs: seq<Digit>, ys: seq<Digit>)
    requires |xs| == |ys|
    ensures LexLess(xs, ys) <==> Value(xs) < Value(ys)
  {
    if |xs| > 0 {
      var p := Pow256(|xs| - 1);
      ValueBound(xs[1..]);
      ValueBound(ys[1..]);
      if xs[0] < ys[0] {
        LeadingDigitDominates(xs[0], ys[0], p, Value(xs[1..]), Value(ys[1..]));
      } else if xs[0] > ys[0] {
        LeadingDigitDominates(ys[0], xs[0], p, Value(ys[1..]), Value(xs[1..]));
      } else {
        LexLessIsNumericLess(xs[1..], ys[1..]);
      }
    }
  }
}
