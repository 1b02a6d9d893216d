/**
 Complex baseband samples with integer in-phase and quadrature parts.
 The magnitude `abs(z)` of the source is replaced by the squared norm `|z|^2`:
 the square root is monotone, so every argmax and every comparison between
 magnitudes comes out the same.
 */
module Iq {

  datatype Complex = Complex(re: int, im: int)

  const Zero := Complex(0, 0)

  function Add(a: Complex, b: Complex): Complex {
    Complex(a.re + b.re, a.im + b.im)
  }

  function Mul(a: Complex, b: Complex): Complex {
    Complex(a.re * b.re - a.im * b.im, a.re * b.im + a.im * b.re)
  }

  function Conj(a: Complex): Complex {
    Complex(a.re, -a.im)
  }

  function Square(x: int): (s: nat) {
    x * x
  }

  /** The squared magnitude, standing in for `abs`. */
  function NormSq(a: Complex): nat {
    Square(a.re) + Square(a.im)
  }

  /** A sample times its own conjugate is real and equals its squared magnitude. */
  lemma MulConjSelf(a: Complex)
    ensures Mul(a, Conj(a)) == Complex(NormSq(a), 0)
  {
  }

  /** Conjugating a sample keeps its squared magnitude. */
  lemma ConjNormSq(a: Complex)
    ensures NormSq(Conj(a)) == NormSq(a)
  {
    assert Square(-a.im) == Square(a.im);
  }
}
