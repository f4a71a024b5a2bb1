/**
 * The real/complex split and merge helpers of Hamiltonianmatrix, used when a
 * matrix of complex entries is stored as two vectors of doubles, and the two
 * bits of the storage-format byte.
 *
 * A double is modelled as `real`; a complex value as a pair of reals.
 */
module HamiltonianMatrix {

  datatype Complex = Complex(re: real, im: real)

  /** Bit 0 of the format byte: set for CSR storage, clear for CSC. */
  const CsrNotCsc: bv8 := 0x01
  /** Bit 1 of the format byte: set for complex entries, clear for real ones. */
  const ComplexNotReal: bv8 := 0x02

  /** The format byte that records both choices. */
  function FormatByte(csr: bool, complex: bool): bv8
  {
    (if csr then CsrNotCsc else 0) | (if complex then ComplexNotReal else 0)
  }

  predicate IsCsr(format: bv8) { format & CsrNotCsc != 0 }

  predicate IsComplex(format: bv8) { format & ComplexNotReal != 0 }

  /** The two flags are distinct single bits, so both choices survive in one byte. */
  lemma FormatFlagsRecoverable(csr: bool, complex: bool)
    ensures CsrNotCsc & ComplexNotReal == 0
    ensures IsCsr(FormatByte(csr, complex)) == csr
    ensures IsComplex(FormatByte(csr, complex)) == complex
  {
  }

  /** Real parts of a complex vector, in order. */
  function RealParts(c: seq<Complex>): (r: seq<real>)
    ensures |r| == |c|
  {
    if c == [] then [] else [c[0].re] + RealParts(c[1..])
  }

  /** Imaginary parts of a complex vector, in order. */
  function ImagParts(c: seq<Complex>): (r: seq<real>)
    ensures |r| == |c|
  {
    if c == [] then [] else [c[0].im] + ImagParts(c[1..])
  }

  /** Complex values built pairwise from a real and an imaginary vector. */
  function Zip(re: seq<real>, im: seq<real>): (r: seq<Complex>)
    requires |re| == |im|
    ensures |r| == |re|
  {
    if re == [] then [] else [Complex(re[0], im[0])] + Zip(re[1..], im[1..])
  }

  lemma {:induction false} PartsSnoc(c: seq<Complex>, x: Complex)
    ensures RealParts(c + [x]) == RealParts(c) + [x.re]
    ensures ImagParts(c + [x]) == ImagParts(c) + [x.im]
  {
    if c != [] {
      assert (c + [x])[1..] == c[1..] + [x];
      PartsSnoc(c[1..], x);
    }
  }

  lemma {:induction false} ZipSnoc(re: seq<real>, im: seq<real>, x: real, y: real)
    requires |re| == |im|
    ensures Zip(re + [x], im + [y]) == Zip(re, im) + [Complex(x, y)]
  {
    if re != [] {
      assert (re + [x])[1..] == re[1..] + [x];
      assert (im + [y])[1..] == im[1..] + [y];
      ZipSnoc(re[1..], im[1..], x, y);
    }
  }

  /** Splitting then zipping gives back the complex vector. */
  lemma {:induction false} ZipOfParts(c: seq<Complex>)
    ensures Zip(RealParts(c), ImagParts(c)) == c
  {
    if c != [] {
      ZipOfParts(c[1..]);
    }
  }

  /** Zipping then splitting gives back both halves. */
  lemma {:induction false} PartsOfZip(re: seq<real>, im: seq<real>)
    requires |re| == |im|
    ensures RealParts(Zip(re, im)) == re && ImagParts(Zip(re, im)) == im
  {
    if re != [] {
      PartsOfZip(re[1..], im[1..]);
    }
  }

  /**
   * splitComplex for a complex build: appends the real part of every element
   * to `reals` and its imaginary part to `imags`, in input order.
   */
  method SplitComplex(reals0: seq<real>, imags0: seq<real>, complex: seq<Complex>)
    returns (reals: seq<real>, imags: seq<real>)
    ensures reals == reals0 + RealParts(complex)
    ensures imags == imags0 + ImagParts(complex)
  {
    reals, imags := reals0, imags0;
    var k := 0;
    while k < |complex|
      invariant 0 <= k <= |complex|
      invariant reals == reals0 + RealParts(complex[..k])
      invariant imags == imags0 + ImagParts(complex[..k])
    {
      PartsSnoc(complex[..k], complex[k]);
      assert complex[..k + 1] == complex[..k] + [complex[k]];
      reals := reals + [complex[k].re];
      imags := imags + [complex[k].im];
      k := k + 1;
    }
    assert complex[..k] == complex;
  }

  /**
   * mergeComplex for a complex build: appends Complex(reals[k], imags[k]) for
   * every k < |reals|, in order. The imaginary iterator advances without a
   * bound check, so `imags` must be at least as long as `reals`.
   */
  method MergeComplex(reals: seq<real>, imags: seq<real>, complex0: seq<Complex>)
    returns (complex: seq<Complex>)
    requires |imags| >= |reals|
    ensures complex == complex0 + Zip(reals, imags[..|reals|])
  {
    complex := complex0;
    var k := 0;
    while k < |reals|
      invariant 0 <= k <= |reals|
      invariant complex == complex0 + Zip(reals[..k], imags[..k])
    {
      ZipSnoc(reals[..k], imags[..k], reals[k], imags[k]);
      assert reals[..k + 1] == reals[..k] + [reals[k]];
      assert imags[..k + 1] == imags[..k] + [imags[k]];
      complex := complex + [Complex(reals[k], imags[k])];
      k := k + 1;
    }
    assert reals[..k] == reals;
  }

  /** splitComplex for a real build: `imags` becomes empty, `reals` a copy of the input. */
  method SplitReal(complex: seq<real>) returns (reals: seq<real>, imags: seq<real>)
    ensures reals == complex && imags == []
  {
    imags := [];
    reals := complex;
  }

  /** mergeComplex for a real build: the output is overwritten with `reals`; `imags` is ignored. */
  method MergeReal(reals: seq<real>, imags: seq<real>) returns (complex: seq<real>)
    ensures complex == reals
  {
    complex := reals;
  }

  /**
   * Round trip of the complex build: splitting into empty vectors and merging
   * the halves into an empty vector reproduces the input.
   */
  method SplitThenMerge(c: seq<Complex>) returns (back: seq<Complex>)
    ensures back == c
  {
    var re, im := SplitComplex([], [], c);
    back := MergeComplex(re, im, []);
    assert re == RealParts(c) && im[..|re|] == ImagParts(c);
    ZipOfParts(c);
  }

  /** Round trip of the real build: splitting and merging reproduces the input. */
  method SplitThenMergeReal(c: seq<real>) returns (back: seq<real>)
    ensures back == c
  {
    var re, im := SplitReal(c);
    back := MergeReal(re, im);
  }
}
