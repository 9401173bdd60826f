// The checksum as the remainder of a division of polynomials over the field of
// two elements, as section 8.1.1.6.2 of ITU-T V.42 and ISO 3309 define it.
module CrcPolynomial {
  import opened Results
  import opened Crc32

  // A polynomial is the set of the exponents it has.
  type Poly = set<nat>

  // Everything but the leading term of the generator has a degree below 32.
  const GENERATOR: Poly := {32, 26, 23, 22, 16, 12, 11, 10, 8, 7, 5, 4, 2, 1, 0}

  function Sum(a: Poly, b: Poly): Poly {
    (a - b) + (b - a)
  }

  // The product with x^k.
  function Raise(a: Poly, k: nat): Poly {
    set e | e in a :: e + k
  }

  // The product of the generator and the polynomial with these coefficients,
  // the highest first.
  function Multiple(quotient: seq<bool>): Poly {
    if quotient == [] then {}
    else
      var n := |quotient| - 1;
      Sum(Raise(Multiple(quotient[..n]), 1), if quotient[n] then GENERATOR else {})
  }

  predicate Below32(a: Poly) {
    forall e :: e in a ==> e < 32
  }

  ghost predicate IsRemainder(dividend: Poly, remainder: Poly) {
    Below32(remainder) && exists quotient :: dividend == Sum(Multiple(quotient), remainder)
  }

  // ---- the message and the checksum as polynomials ----

  function Term(present: bool, exponent: nat): Poly {
    if present then {exponent} else {}
  }

  // The first coefficient stands for x^top.
  function Terms(coefficients: seq<bool>, top: nat): Poly
    requires |coefficients| <= top + 1
  {
    if coefficients == [] then {}
    else
      Term(coefficients[0], top)
      + if |coefficients| == 1 then {} else Terms(coefficients[1..], top - 1)
  }

  // The bits of a byte in the order they are sent, the lowest first.
  function OfByte(byte: bv8): Poly {
    Terms([byte & 1 != 0, byte & 2 != 0, byte & 4 != 0, byte & 8 != 0,
           byte & 16 != 0, byte & 32 != 0, byte & 64 != 0, byte & 128 != 0], 7)
  }

  function OfBytes(bytes: seq<bv8>): Poly {
    if bytes == [] then {}
    else
      var n := |bytes| - 1;
      Sum(Raise(OfBytes(bytes[..n]), 8), OfByte(bytes[n]))
  }

  predicate Low(word: bv32) {
    word & 1 == 1
  }

  function Half(word: bv32): bv32 {
    word >> 1
  }

  // The lowest n bits of a word, the lowest of them standing for x^top. (The
  // kind of word is left open, to keep bit vectors out of the proofs about it.)
  function OfBits<W>(low: W -> bool, half: W -> W, word: W, n: nat, top: nat): Poly
    requires n <= top + 1
    decreases n
  {
    if n == 0 then {}
    else Term(low(word), top) + if n == 1 then {} else OfBits(low, half, half(word), n - 1, top - 1)
  }

  // The lowest bit stands for x^31.
  function OfWord(word: bv32): Poly {
    OfBits(Low, Half, word, 32, 31)
  }

  // x^31 + x^30 + ... + x + 1
  function AllTerms(): Poly {
    Terms(seq(32, i => true), 31)
  }

  // The message behind 32 zeros, with its first 32 bits inverted.
  function Dividend(bytes: seq<bv8>): Poly {
    Sum(Raise(OfBytes(bytes), 32), Raise(AllTerms(), 8 * |bytes|))
  }

  // ---- laws of polynomials ----

  lemma RaiseMeaning(a: Poly, k: nat)
    ensures forall e: nat :: e in Raise(a, k) <==> e >= k && e - k in a
  {
    forall e: nat | e >= k && e - k in a ensures e in Raise(a, k) {
      assert e == (e - k) + k;
    }
  }

  lemma RaiseSum(a: Poly, b: Poly, k: nat)
    ensures Raise(Sum(a, b), k) == Sum(Raise(a, k), Raise(b, k))
  {
    RaiseMeaning(a, k);
    RaiseMeaning(b, k);
    RaiseMeaning(Sum(a, b), k);
  }

  lemma RaiseTerm(present: bool, exponent: nat, rest: Poly, k: nat)
    ensures Raise(Term(present, exponent) + rest, k) == Term(present, exponent + k) + Raise(rest, k)
    ensures Raise(Term(present, exponent), k) == Term(present, exponent + k)
  {
    RaiseMeaning(Term(present, exponent) + rest, k);
    RaiseMeaning(Term(present, exponent), k);
    RaiseMeaning(rest, k);
  }

  lemma RaiseTwice(a: Poly, j: nat, k: nat)
    ensures Raise(Raise(a, j), k) == Raise(a, j + k) && Raise(a, 0) == a
  {
    RaiseMeaning(a, j);
    RaiseMeaning(a, 0);
    RaiseMeaning(Raise(a, j), k);
    RaiseMeaning(a, j + k);
  }

  lemma SumLaws(a: Poly, b: Poly, c: Poly)
    ensures Sum(Sum(a, b), c) == Sum(a, Sum(b, c)) && Sum(a, b) == Sum(b, a) && Sum(a, a) == {} && Sum(a, {}) == a
  {
  }

  // ---- words ----

  lemma {:induction false} BitsAreBelow<W>(low: W -> bool, half: W -> W, word: W, n: nat, top: nat)
    requires n <= top + 1
    ensures forall e :: e in OfBits(low, half, word, n, top) ==> top + 1 - n <= e <= top
    decreases n
  {
    if n > 1 {
      BitsAreBelow(low, half, half(word), n - 1, top - 1);
    }
  }

  lemma WordIsBelow(word: bv32)
    ensures Below32(OfWord(word))
  {
    BitsAreBelow(Low, Half, word, 32, 31);
  }

  lemma SumOfTerms(p: bool, q: bool, top: nat, x: Poly, y: Poly)
    requires forall e :: e in x || e in y ==> e < top
    ensures Term(p != q, top) + Sum(x, y) == Sum(Term(p, top) + x, Term(q, top) + y)
    ensures Term(p != q, top) == Sum(Term(p, top), Term(q, top))
  {
  }

  ghost predicate XorBits<W(!new)>(low: W -> bool, half: W -> W, xor: (W, W) -> W) {
    forall a, b :: low(xor(a, b)) == (low(a) != low(b)) && half(xor(a, b)) == xor(half(a), half(b))
  }

  lemma {:induction false} BitsOfXor<W(!new)>(
      low: W -> bool, half: W -> W, xor: (W, W) -> W, a: W, b: W, n: nat, top: nat)
    requires n <= top + 1 && XorBits(low, half, xor)
    ensures OfBits(low, half, xor(a, b), n, top) == Sum(OfBits(low, half, a, n, top), OfBits(low, half, b, n, top))
    decreases n
  {
    if n > 1 {
      BitsOfXor(low, half, xor, half(a), half(b), n - 1, top - 1);
      BitsAreBelow(low, half, half(a), n - 1, top - 1);
      BitsAreBelow(low, half, half(b), n - 1, top - 1);
      SumOfTerms(low(a), low(b), top, OfBits(low, half, half(a), n - 1, top - 1),
                 OfBits(low, half, half(b), n - 1, top - 1));
    } else if n == 1 {
      SumOfTerms(low(a), low(b), top, {}, {});
    }
  }

  lemma WordsXor(a: bv32, b: bv32)
    ensures Low(Xor(a, b)) == (Low(a) != Low(b)) && Half(Xor(a, b)) == Xor(Half(a), Half(b))
  {
    XorShift(a, b);
    LowBit(a, b);
    LowBit(b, a);
  }

  lemma OfXor(a: bv32, b: bv32)
    ensures OfWord(Xor(a, b)) == Sum(OfWord(a), OfWord(b))
  {
    forall a, b ensures Low(Xor(a, b)) == (Low(a) != Low(b)) && Half(Xor(a, b)) == Xor(Half(a), Half(b)) {
      WordsXor(a, b);
    }
    BitsOfXor(Low, Half, Xor, a, b, 32, 31);
  }

  lemma {:induction false} RaisedBits<W>(low: W -> bool, half: W -> W, word: W, n: nat, top: nat)
    requires n <= top + 1
    ensures Raise(OfBits(low, half, word, n, top), 1) == OfBits(low, half, word, n, top + 1)
    decreases n
  {
    RaiseMeaning(OfBits(low, half, word, n, top), 1);
    if n > 1 {
      RaisedBits(low, half, half(word), n - 1, top - 1);
      RaiseMeaning(OfBits(low, half, half(word), n - 1, top - 1), 1);
    }
  }

  // A word whose first n bits are all there is of it.
  predicate Fits<W(==)>(half: W -> W, zero: W, word: W, n: nat) {
    if n == 0 then word == zero else Fits(half, zero, half(word), n - 1)
  }

  // One bit more adds nothing to it.
  lemma {:induction false} NothingAbove<W>(low: W -> bool, half: W -> W, zero: W, word: W, n: nat, top: nat)
    requires n <= top && Fits(half, zero, word, n) && !low(zero)
    ensures OfBits(low, half, word, n + 1, top) == OfBits(low, half, word, n, top)
    decreases n
  {
    if n > 0 {
      NothingAbove(low, half, zero, half(word), n - 1, top - 1);
    }
  }

  // Only zero has no bits.
  lemma {:induction false} NoBits<W>(low: W -> bool, half: W -> W, zero: W, word: W, n: nat, top: nat)
    requires n <= top + 1 && Fits(half, zero, word, n) && OfBits(low, half, word, n, top) == {}
    requires forall w :: half(w) == zero && !low(w) ==> w == zero
    ensures word == zero
    decreases n
  {
    if n > 0 {
      assert top !in OfBits(low, half, word, n, top) && Term(low(word), top) <= OfBits(low, half, word, n, top);
      if n > 1 {
        assert OfBits(low, half, half(word), n - 1, top - 1) <= OfBits(low, half, word, n, top);
        NoBits(low, half, zero, half(word), n - 1, top - 1);
      }
    }
  }

  lemma {:induction false} IterateFirst<T>(f: T -> T, x: T, n: nat)
    ensures Iterate(f, x, n + 1) == Iterate(f, f(x), n)
  {
    if n > 0 {
      IterateFirst(f, x, n - 1);
    }
  }

  lemma {:induction false} IterateMore<T>(f: T -> T, x: T, m: nat, n: nat)
    ensures Iterate(f, x, m + n) == Iterate(f, Iterate(f, x, m), n)
  {
    if n > 0 {
      IterateMore(f, x, m, n - 1);
    }
  }

  lemma {:induction false} FitsMeaning<W>(half: W -> W, zero: W, word: W, n: nat)
    ensures Fits(half, zero, word, n) <==> Iterate(half, word, n) == zero
  {
    if n > 0 {
      FitsMeaning(half, zero, half(word), n - 1);
      IterateFirst(half, word, n - 1);
    }
  }

  lemma HalfSteps(x: bv32)
    ensures (x >> 1) >> 1 == x >> 2 && (x >> 2) >> 1 == x >> 3 && (x >> 3) >> 1 == x >> 4 && (x >> 4) >> 1 == x >> 5
    ensures (x >> 5) >> 1 == x >> 6 && (x >> 6) >> 1 == x >> 7 && (x >> 7) >> 1 == x >> 8
  {
  }

  ghost predicate Halving(f: bv32 -> bv32) {
    forall w :: f(w) == w >> 1
  }

  lemma EightHalves(f: bv32 -> bv32, x: bv32)
    requires Halving(f)
    ensures Iterate(f, x, 8) == x >> 8
  {
    HalvesChain(f, x);
    EightSteps(f, x, x >> 1, x >> 2, x >> 3, x >> 4, x >> 5, x >> 6, x >> 7);
  }

  lemma HalvesChain(f: bv32 -> bv32, x: bv32)
    requires Halving(f)
    ensures f(x) == x >> 1 && f(x >> 1) == x >> 2 && f(x >> 2) == x >> 3 && f(x >> 3) == x >> 4
    ensures f(x >> 4) == x >> 5 && f(x >> 5) == x >> 6 && f(x >> 6) == x >> 7 && f(x >> 7) == x >> 8
  {
    HalfSteps(x);
  }

  lemma EightSteps<W>(f: W -> W, a: W, b: W, c: W, d: W, e: W, g: W, h: W, i: W)
    requires f(a) == b && f(b) == c && f(c) == d && f(d) == e && f(e) == g && f(g) == h && f(h) == i
    ensures Iterate(f, a, 0) == a && Iterate(f, a, 1) == b && Iterate(f, a, 2) == c && Iterate(f, a, 3) == d
    ensures Iterate(f, a, 4) == e && Iterate(f, a, 5) == g && Iterate(f, a, 6) == h && Iterate(f, a, 7) == i
    ensures Iterate(f, a, 8) == f(i)
  {
  }

  lemma FourBytes(x: bv32)
    ensures (((x >> 8) >> 8) >> 8) >> 8 == 0
  {
  }

  lemma WordFits(word: bv32)
    ensures Fits(Half, 0, word, 32)
  {
    var one, two := word >> 8, (word >> 8) >> 8;
    EightHalves(Half, word);
    EightHalves(Half, one);
    EightHalves(Half, two);
    EightHalves(Half, two >> 8);
    IterateMore(Half, word, 8, 8);
    IterateMore(Half, word, 16, 8);
    IterateMore(Half, word, 24, 8);
    FourBytes(word);
    FitsMeaning(Half, 0, word, 32);
  }

  // ---- bytes of words ----

  lemma {:induction false} SplitBits<W>(low: W -> bool, half: W -> W, word: W, m: nat, n: nat, top: nat)
    requires 0 < n && m + n <= top + 1
    ensures OfBits(low, half, word, m + n, top)
         == OfBits(low, half, word, m, top) + OfBits(low, half, Iterate(half, word, m), n, top - m)
    decreases m
  {
    if m > 0 {
      SplitBits(low, half, half(word), m - 1, n, top - 1);
      IterateFirst(half, word, m - 1);
    }
  }

  lemma {:induction false} BitsAreTerms<W>(low: W -> bool, half: W -> W, word: W, bits: seq<bool>, top: nat)
    requires 0 < |bits| <= top + 1
    requires forall i :: 0 <= i < |bits| ==> bits[i] == low(Iterate(half, word, i))
    ensures OfBits(low, half, word, |bits|, top) == Terms(bits, top)
    decreases |bits|
  {
    if |bits| > 1 {
      forall i | 0 <= i < |bits| - 1 ensures bits[1..][i] == low(Iterate(half, half(word), i)) {
        IterateFirst(half, word, i);
      }
      BitsAreTerms(low, half, half(word), bits[1..], top - 1);
    }
  }

  // The lowest byte of a word.
  function LowByte(word: bv32): seq<bool> {
    [word & 1 == 1, (word >> 1) & 1 == 1, (word >> 2) & 1 == 1, (word >> 3) & 1 == 1,
     (word >> 4) & 1 == 1, (word >> 5) & 1 == 1, (word >> 6) & 1 == 1, (word >> 7) & 1 == 1]
  }

  lemma LowByteBit(f: bv32 -> bv32, x: bv32, i: nat)
    requires Halving(f) && i < 8
    ensures LowByte(x)[i] == (Iterate(f, x, i) & 1 == 1)
  {
    FirstHalves(f, x);
  }

  lemma LowByteIs(word: bv32, top: nat)
    requires top >= 7
    ensures OfBits(Low, Half, word, 8, top) == Terms(LowByte(word), top)
  {
    var bits := LowByte(word);
    forall i | 0 <= i < 8 ensures bits[i] == Low(Iterate(Half, word, i)) {
      LowByteBit(Half, word, i);
    }
    TermsOfLow(Low, Half, word, bits, top);
  }

  lemma TermsOfLow<W>(low: W -> bool, half: W -> W, word: W, bits: seq<bool>, top: nat)
    requires |bits| == 8 && top >= 7 && forall i :: 0 <= i < 8 ==> bits[i] == low(Iterate(half, word, i))
    ensures OfBits(low, half, word, 8, top) == Terms(bits, top)
  {
    BitsAreTerms(low, half, word, bits, top);
  }

  lemma FirstHalves(f: bv32 -> bv32, x: bv32)
    requires Halving(f)
    ensures Iterate(f, x, 0) == x && Iterate(f, x, 1) == x >> 1 && Iterate(f, x, 2) == x >> 2
    ensures Iterate(f, x, 3) == x >> 3 && Iterate(f, x, 4) == x >> 4 && Iterate(f, x, 5) == x >> 5
    ensures Iterate(f, x, 6) == x >> 6 && Iterate(f, x, 7) == x >> 7
  {
    HalvesChain(f, x);
    EightSteps(f, x, x >> 1, x >> 2, x >> 3, x >> 4, x >> 5, x >> 6, x >> 7);
  }

  lemma FourTimesEight<W>(low: W -> bool, half: W -> W, a: W, b: W, c: W, d: W)
    requires b == Iterate(half, a, 8) && c == Iterate(half, b, 8) && d == Iterate(half, c, 8)
    ensures OfBits(low, half, a, 32, 31) ==
            OfBits(low, half, a, 8, 31) + (OfBits(low, half, b, 8, 23) + (OfBits(low, half, c, 8, 15)
            + OfBits(low, half, d, 8, 7)))
  {
    SplitBits(low, half, a, 8, 24, 31);
    SplitBits(low, half, b, 8, 16, 23);
    SplitBits(low, half, c, 8, 8, 15);
  }

  // A word by its bytes, the lowest first.
  lemma WordOfBytes(a: bv32, b: bv32, c: bv32, d: bv32)
    requires b == a >> 8 && c == b >> 8 && d == c >> 8
    ensures OfWord(a) ==
            Terms(LowByte(a), 31) + (Terms(LowByte(b), 23) + (Terms(LowByte(c), 15) + Terms(LowByte(d), 7)))
  {
    EightHalves(Half, a);
    EightHalves(Half, b);
    EightHalves(Half, c);
    FourTimesEight(Low, Half, a, b, c, d);
    LowByteIs(a, 31);
    LowByteIs(b, 23);
    LowByteIs(c, 15);
    LowByteIs(d, 7);
  }

  lemma GeneratorBytes()
    ensures LowByte(POLYNOMIAL) == [false, false, false, false, false, true, false, false]
    ensures LowByte(POLYNOMIAL >> 8) == [true, true, false, false, false, false, false, true]
    ensures LowByte((POLYNOMIAL >> 8) >> 8) == [false, false, false, true, true, true, false, true]
    ensures LowByte(((POLYNOMIAL >> 8) >> 8) >> 8) == [true, false, true, true, false, true, true, true]
  {
  }

  lemma {:induction false} TermsMeaning(bits: seq<bool>, top: nat)
    requires |bits| <= top + 1
    ensures forall e :: e in Terms(bits, top) <==> 0 <= top - e < |bits| && bits[top - e]
    decreases |bits|
  {
    if |bits| > 1 {
      TermsMeaning(bits[1..], top - 1);
    }
  }

  lemma FirstGeneratorTerms()
    ensures Terms([false, false, false, false, false, true, false, false], 31) == {26}
  {
    TermsAre([false, false, false, false, false, true, false, false], 31, {26});
  }

  lemma SecondGeneratorTerms()
    ensures Terms([true, true, false, false, false, false, false, true], 23) == {23, 22, 16}
  {
    TermsAre([true, true, false, false, false, false, false, true], 23, {23, 22, 16});
  }

  lemma ThirdGeneratorTerms()
    ensures Terms([false, false, false, true, true, true, false, true], 15) == {12, 11, 10, 8}
  {
    TermsAre([false, false, false, true, true, true, false, true], 15, {12, 11, 10, 8});
  }

  lemma LastGeneratorTerms()
    ensures Terms([true, false, true, true, false, true, true, true], 7) == {7, 5, 4, 2, 1, 0}
  {
    TermsAre([true, false, true, true, false, true, true, true], 7, {7, 5, 4, 2, 1, 0});
  }

  lemma TermsAre(bits: seq<bool>, top: nat, poly: Poly)
    requires |bits| == 8 <= top + 1 && forall i :: 0 <= i < 8 ==> (bits[i] <==> top - i in poly)
    requires forall e :: e in poly ==> top - 7 <= e <= top
    ensures Terms(bits, top) == poly
  {
    TermsMeaning(bits, top);
    forall e ensures e in Terms(bits, top) <==> e in poly {
      if 0 <= top - e < 8 {
        assert bits[top - e] <==> top - (top - e) in poly;
      }
    }
  }

  lemma GeneratorUnion()
    ensures {26} + ({23, 22, 16} + ({12, 11, 10, 8} + {7, 5, 4, 2, 1, 0})) == GENERATOR - {32}
  {
  }

  // The word the code calls the polynomial is the generator without its
  // leading term.
  lemma GeneratorWord(word: bv32)
    requires word == POLYNOMIAL
    ensures OfWord(word) == GENERATOR - {32}
  {
    GeneratorBytes();
    FirstGeneratorTerms();
    SecondGeneratorTerms();
    ThirdGeneratorTerms();
    LastGeneratorTerms();
    GeneratorUnion();
    WordOfBytes(word, word >> 8, (word >> 8) >> 8, ((word >> 8) >> 8) >> 8);
  }

  // ---- one shift divides by one step ----

  function Coefficient(present: bool): Poly {
    if present then GENERATOR else {}
  }

  lemma HalfOfWord(word: bv32)
    ensures OfWord(Half(word)) == Raise(OfBits(Low, Half, Half(word), 31, 30), 1)
    ensures OfWord(word) == Term(Low(word), 31) + OfBits(Low, Half, Half(word), 31, 30)
  {
    WordFits(word);
    HalvedBits(Low, Half, 0, word);
  }

  lemma HalvedBits<W>(low: W -> bool, half: W -> W, zero: W, word: W)
    requires Fits(half, zero, word, 32) && !low(zero)
    ensures OfBits(low, half, half(word), 32, 31) == Raise(OfBits(low, half, half(word), 31, 30), 1)
    ensures OfBits(low, half, word, 32, 31) == Term(low(word), 31) + OfBits(low, half, half(word), 31, 30)
  {
    NothingAbove(low, half, zero, half(word), 31, 31);
    RaisedBits(low, half, half(word), 31, 30);
  }

  // Adding a polynomial takes away a term that both have.
  lemma CancelTerm(g: Poly, r: Poly, e: nat)
    requires e in g && e !in r
    ensures Sum({e} + r, g) == Sum(r, g - {e})
  {
  }

  lemma RaisedWord(low: bool, rest: Poly)
    requires forall e :: e in rest ==> e <= 30
    ensures Sum(Raise(Term(low, 31) + rest, 1), Coefficient(low)) ==
            if low then Sum(Raise(rest, 1), GENERATOR - {32}) else Raise(rest, 1)
  {
    RaiseTerm(low, 31, rest, 1);
    RaiseMeaning(rest, 1);
    if low {
      CancelTerm(GENERATOR, Raise(rest, 1), 32);
    } else {
      SumLaws(Raise(rest, 1), {}, {});
    }
  }

  lemma ShiftDivides(word: bv32)
    ensures OfWord(Shift(word)) == Sum(Raise(OfWord(word), 1), Coefficient(Low(word)))
  {
    HalfOfWord(word);
    BitsAreBelow(Low, Half, Half(word), 31, 30);
    RaisedWord(Low(word), OfBits(Low, Half, Half(word), 31, 30));
    ShiftedWord(word);
    if Low(word) {
      OfXor(Half(word), POLYNOMIAL);
      GeneratorWord(POLYNOMIAL);
    }
  }

  lemma ShiftedWord(word: bv32)
    ensures Shift(word) == if Low(word) then Xor(Half(word), POLYNOMIAL) else Half(word)
  {
    LowBit(word, 0);
  }

  // One step of a division, for words of any kind.
  ghost predicate Divides<W(!new)>(poly: W -> Poly, low: W -> bool, step: W -> W) {
    forall w :: poly(step(w)) == Sum(Raise(poly(w), 1), Coefficient(low(w)))
  }

  // n steps: what is left differs from the raised word by a multiple.
  lemma {:induction false} StepsDivide<W(!new)>(poly: W -> Poly, low: W -> bool, step: W -> W, word: W, n: nat)
      returns (quotient: seq<bool>)
    requires Divides(poly, low, step)
    ensures |quotient| == n && poly(Iterate(step, word, n)) == Sum(Raise(poly(word), n), Multiple(quotient))
  {
    if n == 0 {
      quotient := [];
      RaiseTwice(poly(word), 0, 0);
    } else {
      var before := StepsDivide(poly, low, step, word, n - 1);
      var last := Iterate(step, word, n - 1);
      quotient := before + [low(last)];
      assert quotient[..n - 1] == before;
      NextStep(poly(word), n - 1, Multiple(before), Coefficient(low(last)));
    }
  }

  lemma NextStep(a: Poly, n: nat, m: Poly, c: Poly)
    ensures Sum(Raise(Sum(Raise(a, n), m), 1), c) == Sum(Raise(a, n + 1), Sum(Raise(m, 1), c))
  {
    RaiseSum(Raise(a, n), m, 1);
    RaiseTwice(a, n, 1);
    SumLaws(Raise(a, n + 1), Raise(m, 1), c);
  }

  lemma EightShiftsDivide(word: bv32) returns (quotient: seq<bool>)
    ensures |quotient| == 8 && OfWord(EightShifts(word)) == Sum(Raise(OfWord(word), 8), Multiple(quotient))
  {
    forall w ensures OfWord(Shift(w)) == Sum(Raise(OfWord(w), 1), Coefficient(Low(w))) {
      ShiftDivides(w);
    }
    quotient := StepsDivide(OfWord, Low, Shift, word, 8);
  }

  // ---- the message ----

  lemma ByteBits(byte: bv8)
    ensures LowByte(byte as bv32) ==
            [byte & 1 != 0, byte & 2 != 0, byte & 4 != 0, byte & 8 != 0,
             byte & 16 != 0, byte & 32 != 0, byte & 64 != 0, byte & 128 != 0]
    ensures (byte as bv32) >> 8 == 0
  {
  }

  lemma ZeroBytes()
    ensures LowByte(0) == [false, false, false, false, false, false, false, false] && (0 as bv32) >> 8 == 0
  {
  }

  lemma {:induction false} RaisedTerms(bits: seq<bool>, top: nat, k: nat)
    requires |bits| <= top + 1
    ensures Raise(Terms(bits, top), k) == Terms(bits, top + k)
    decreases |bits|
  {
    if |bits| == 1 {
      RaiseTerm(bits[0], top, {}, k);
    } else if |bits| > 1 {
      RaisedTerms(bits[1..], top - 1, k);
      RaiseTerm(bits[0], top, Terms(bits[1..], top - 1), k);
    }
  }

  lemma ZeroTerms(top: nat)
    requires top >= 7
    ensures Terms(LowByte(0), top) == {}
  {
    ZeroBytes();
    TermsMeaning([false, false, false, false, false, false, false, false], top);
  }

  lemma WordOfByte(byte: bv8, word: bv32)
    requires word == byte as bv32
    ensures OfWord(word) == Raise(OfByte(byte), 24)
  {
    ByteBits(byte);
    ZeroBytes();
    WordOfBytes(word, 0, 0, 0);
    RaisedTerms(LowByte(word), 7, 24);
    ZeroTerms(23);
    ZeroTerms(15);
    ZeroTerms(7);
  }

  // ---- the register ----

  lemma {:induction false} MultipleConcat(first: seq<bool>, more: seq<bool>)
    ensures Multiple(first + more) == Sum(Raise(Multiple(first), |more|), Multiple(more))
    decreases |more|
  {
    if more == [] {
      assert first + more == first;
      RaiseTwice(Multiple(first), 0, 0);
      SumLaws(Multiple(first), {}, {});
    } else {
      var n := |more| - 1;
      MultipleConcat(first, more[..n]);
      MultipleOneMore(more[..n], more[n]);
      MultipleOneMore(first + more[..n], more[n]);
      assert more == more[..n] + [more[n]] && first + more == (first + more[..n]) + [more[n]];
      NextStep(Multiple(first), n, Multiple(more[..n]), Coefficient(more[n]));
    }
  }

  lemma MultipleOneMore(quotient: seq<bool>, bit: bool)
    ensures Multiple(quotient + [bit]) == Sum(Raise(Multiple(quotient), 1), Coefficient(bit))
  {
    assert (quotient + [bit])[..|quotient|] == quotient;
  }

  // The dividend of one more byte.
  lemma DividendOneMore(bytes: seq<bv8>, byte: bv8)
    ensures Dividend(bytes + [byte]) == Sum(Raise(Dividend(bytes), 8), Raise(OfByte(byte), 32))
  {
    assert (bytes + [byte])[..|bytes|] == bytes;
    DividendStep(OfBytes(bytes), OfByte(byte), AllTerms(), 8 * |bytes|);
  }

  lemma DividendStep(m: Poly, b: Poly, ones: Poly, k: nat)
    ensures Sum(Raise(Sum(Raise(m, 8), b), 32), Raise(ones, k + 8))
         == Sum(Raise(Sum(Raise(m, 32), Raise(ones, k)), 8), Raise(b, 32))
  {
    RaiseSum(Raise(m, 8), b, 32);
    RaiseTwice(m, 8, 32);
    RaiseTwice(m, 32, 8);
    RaiseSum(Raise(m, 32), Raise(ones, k), 8);
    RaiseTwice(ones, k, 8);
    Rearranged(Raise(m, 40), Raise(b, 32), Raise(ones, k + 8));
  }

  lemma Rearranged(a: Poly, b: Poly, c: Poly)
    ensures Sum(Sum(a, b), c) == Sum(Sum(a, c), b)
  {
  }

  lemma StartBytes(word: bv32)
    requires word == START
    ensures forall i :: 0 <= i < 8 ==> LowByte(word)[i]
    ensures LowByte(word >> 8) == LowByte((word >> 8) >> 8) == LowByte(((word >> 8) >> 8) >> 8) == LowByte(word)
  {
  }

  lemma AllTermsMeaning()
    ensures forall e: nat :: e in AllTerms() <==> e < 32
  {
    TermsMeaning(seq(32, i => true), 31);
  }

  lemma StartWord(word: bv32)
    requires word == START
    ensures OfWord(word) == AllTerms()
  {
    var b, c := word >> 8, (word >> 8) >> 8;
    var d := c >> 8;
    StartBytes(word);
    WordOfBytes(word, b, c, d);
    AllOnes(LowByte(word));
  }

  lemma AllOnes(ones: seq<bool>)
    requires |ones| == 8 && forall i :: 0 <= i < 8 ==> ones[i]
    ensures Terms(ones, 31) + (Terms(ones, 23) + (Terms(ones, 15) + Terms(ones, 7))) == AllTerms()
  {
    OnesAre(ones, 31);
    OnesAre(ones, 23);
    OnesAre(ones, 15);
    OnesAre(ones, 7);
    AllTermsMeaning();
    FourRanges(Terms(ones, 31), Terms(ones, 23), Terms(ones, 15), Terms(ones, 7), AllTerms());
  }

  lemma FourRanges(a: Poly, b: Poly, c: Poly, d: Poly, all: Poly)
    requires (forall e: nat :: e in a <==> 24 <= e <= 31) && (forall e: nat :: e in b <==> 16 <= e <= 23)
    requires (forall e: nat :: e in c <==> 8 <= e <= 15) && (forall e: nat :: e in d <==> e <= 7)
    requires forall e: nat :: e in all <==> e < 32
    ensures a + (b + (c + d)) == all
  {
  }

  lemma OnesAre(ones: seq<bool>, top: nat)
    requires |ones| == 8 <= top + 1 && forall i :: 0 <= i < 8 ==> ones[i]
    ensures forall e: nat :: e in Terms(ones, top) <==> top - 7 <= e <= top
  {
    TermsMeaning(ones, top);
  }

  // What the register and the dividend differ by.
  function Gap(bytes: seq<bv8>): Poly {
    Sum(Dividend(bytes), OfWord(Register(bytes)))
  }

  ghost predicate IsMultiple(p: Poly) {
    exists quotient :: p == Multiple(quotient)
  }

  // Induction over a list, one element more at the end.
  lemma {:induction false} ByLastElement<T(!new)>(holds: seq<T> -> bool, list: seq<T>)
    requires holds([]) && forall first, x :: holds(first) ==> holds(first + [x])
    ensures holds(list)
  {
    if list != [] {
      var n := |list| - 1;
      ByLastElement(holds, list[..n]);
      assert list == list[..n] + [list[n]];
    }
  }

  // It is a multiple of the generator.
  lemma RegisterDivides(bytes: seq<bv8>)
    ensures IsMultiple(Gap(bytes))
  {
    NothingDivided([]);
    forall first, byte | IsMultiple(Gap(first)) ensures IsMultiple(Gap(first + [byte])) {
      NextByte(first, byte);
    }
    ByLastElement(b => IsMultiple(Gap(b)), bytes);
  }

  lemma NothingDivided(bytes: seq<bv8>)
    requires bytes == []
    ensures IsMultiple(Gap(bytes))
  {
    StartWord(Register(bytes));
    NoMessage(OfBytes(bytes), AllTerms());
    assert Gap(bytes) == Multiple([]);
  }

  lemma NoMessage(m: Poly, ones: Poly)
    requires m == {}
    ensures Sum(Sum(Raise(m, 32), Raise(ones, 0)), ones) == {}
  {
    RaiseTwice(ones, 0, 0);
    RaiseMeaning(m, 32);
    SumLaws(ones, {}, {});
  }

  lemma NextByte(bytes: seq<bv8>, byte: bv8)
    requires IsMultiple(Gap(bytes))
    ensures IsMultiple(Gap(bytes + [byte]))
  {
    var before :| Gap(bytes) == Multiple(before);
    RegisterOneMore(bytes, byte);
    var more := OneByteDivides(Register(bytes), byte);
    MultipleConcat(before, more);
    DividendOneMore(bytes, byte);
    Combined(Dividend(bytes), OfWord(Register(bytes)), Raise(OfByte(byte), 32), Multiple(more));
    assert Gap(bytes + [byte]) == Multiple(before + more);
  }

  lemma RegisterOneMore(bytes: seq<bv8>, byte: bv8)
    ensures Register(bytes + [byte]) == EightShifts(WithByte(Register(bytes), byte))
  {
    assert (bytes + [byte])[..|bytes|] == bytes;
  }

  lemma Combined(d: Poly, r: Poly, b: Poly, m: Poly)
    ensures Sum(Sum(Raise(d, 8), b), Sum(Sum(Raise(r, 8), b), m)) == Sum(Raise(Sum(d, r), 8), m)
  {
    RaiseSum(d, r, 8);
    Cancels(Raise(d, 8), b, Raise(r, 8), m);
  }

  lemma Cancels(d: Poly, b: Poly, r: Poly, m: Poly)
    ensures Sum(Sum(d, b), Sum(Sum(r, b), m)) == Sum(Sum(d, r), m)
  {
  }

  lemma OneByteDivides(register: bv32, byte: bv8) returns (quotient: seq<bool>)
    ensures |quotient| == 8
    ensures OfWord(EightShifts(WithByte(register, byte))) ==
            Sum(Sum(Raise(OfWord(register), 8), Raise(OfByte(byte), 32)), Multiple(quotient))
  {
    quotient := EightShiftsDivide(WithByte(register, byte));
    WordOfByte(byte, byte as bv32);
    OfXor(register, byte as bv32);
    assert WithByte(register, byte) == Xor(register, byte as bv32);
    RaiseSum(OfWord(register), Raise(OfByte(byte), 24), 8);
    RaiseTwice(OfByte(byte), 24, 8);
  }

  // ---- the remainder is unique ----

  function Coefficients(a: seq<bool>, b: seq<bool>): seq<bool>
    requires |a| == |b|
  {
    seq(|a|, i requires 0 <= i < |a| => a[i] != b[i])
  }

  lemma {:induction false} MultiplesAdd(a: seq<bool>, b: seq<bool>)
    requires |a| == |b|
    ensures Multiple(Coefficients(a, b)) == Sum(Multiple(a), Multiple(b))
    decreases |a|
  {
    if a != [] {
      var n := |a| - 1;
      MultiplesAdd(a[..n], b[..n]);
      assert Coefficients(a, b)[..n] == Coefficients(a[..n], b[..n]);
      RaiseSum(Multiple(a[..n]), Multiple(b[..n]), 1);
      FourWay(Raise(Multiple(a[..n]), 1), Raise(Multiple(b[..n]), 1), a[n], b[n]);
    }
  }

  lemma FourWay(x: Poly, y: Poly, p: bool, q: bool)
    ensures Sum(Sum(x, y), Coefficient(p != q)) == Sum(Sum(x, Coefficient(p)), Sum(y, Coefficient(q)))
  {
    SumsOfSums(x, y, Coefficient(p), Coefficient(q));
    SumLaws(GENERATOR, {}, {});
  }

  lemma SumsOfSums(x: Poly, y: Poly, g: Poly, h: Poly)
    ensures Sum(Sum(x, y), Sum(g, h)) == Sum(Sum(x, g), Sum(y, h))
  {
  }

  // Leading zeros change nothing.
  function Zeros(n: nat): seq<bool> {
    seq(n, i => false)
  }

  lemma {:induction false} MultipleOfZeros(n: nat)
    ensures Multiple(Zeros(n)) == {}
  {
    if n > 0 {
      MultipleOfZeros(n - 1);
      assert Zeros(n)[..n - 1] == Zeros(n - 1);
      RaiseMeaning({}, 1);
      SumLaws({}, {}, {});
    }
  }

  lemma Padded(quotient: seq<bool>, n: nat)
    ensures Multiple(Zeros(n) + quotient) == Multiple(quotient)
  {
    MultipleOfZeros(n);
    MultipleConcat(Zeros(n), quotient);
    RaiseMeaning({}, |quotient|);
    SumLaws(Multiple(quotient), {}, {});
  }

  // A multiple of degree below 32 is zero.
  lemma {:induction false} SmallMultiple(quotient: seq<bool>)
    ensures Multiple(quotient) == {} || exists e :: e in Multiple(quotient) && e >= 32
  {
    if quotient != [] {
      var n := |quotient| - 1;
      SmallMultiple(quotient[..n]);
      LeadingTerm(Multiple(quotient[..n]), Coefficient(quotient[n]));
      assert quotient[n] ==> 32 in Coefficient(quotient[n]);
    }
  }

  lemma LeadingTerm(before: Poly, last: Poly)
    requires (before == {} || exists e :: e in before && e >= 32) && forall e :: e in last ==> e <= 32
    ensures before == {} ==> Sum(Raise(before, 1), last) == last
    ensures before != {} ==> exists e :: e in Sum(Raise(before, 1), last) && e >= 32
  {
    RaiseMeaning(before, 1);
    if before != {} {
      var e :| e in before && e >= 32;
      assert e + 1 in Sum(Raise(before, 1), last);
    }
  }

  lemma RemaindersAgree(dividend: Poly, r: Poly, s: Poly)
    requires IsRemainder(dividend, r) && IsRemainder(dividend, s)
    ensures r == s
  {
    var a :| dividend == Sum(Multiple(a), r);
    var b :| dividend == Sum(Multiple(b), s);
    var x, y := Zeros(|b|) + a, Zeros(|a|) + b;
    Padded(a, |b|);
    Padded(b, |a|);
    MultiplesAdd(x, y);
    SmallMultiple(Coefficients(x, y));
    Difference(Multiple(a), r, Multiple(b), s);
  }

  lemma Difference(a: Poly, r: Poly, b: Poly, s: Poly)
    requires Sum(a, r) == Sum(b, s) && Below32(r) && Below32(s)
    ensures Sum(a, b) == Sum(r, s) && Below32(Sum(r, s)) && (Sum(r, s) == {} ==> r == s)
  {
    SumsOfSums(a, r, b, s);
    SumLaws(Sum(a, r), {}, {});
    assert Sum(Sum(a, b), Sum(r, s)) == {};
    if Sum(r, s) == {} {
      assert forall e :: e in r <==> e in s;
    }
  }

  // ---- the theorem ----

  lemma SameWord(a: bv32, b: bv32)
    requires OfWord(a) == OfWord(b)
    ensures a == b
  {
    OfXor(a, b);
    SumLaws(OfWord(a), {}, {});
    WordFits(Xor(a, b));
    forall w ensures Half(w) == 0 && !Low(w) ==> w == 0 {
      NoBitsLeft(w);
    }
    NoBits(Low, Half, 0, Xor(a, b), 32, 31);
    XorIsZero(a, b);
  }

  lemma NoBitsLeft(w: bv32)
    ensures Half(w) == 0 && !Low(w) ==> w == 0
  {
  }

  lemma XorIsZero(a: bv32, b: bv32)
    ensures Xor(a, b) == 0 ==> a == b
  {
  }

  lemma ComplementTerms(word: bv32)
    ensures Sum(AllTerms(), OfWord(!word)) == OfWord(word)
  {
    var start :| start == START;
    StartWord(start);
    OfXor(word, start);
    ComplementIsXor(word);
    SumTwice(OfWord(word), AllTerms());
  }

  lemma SumTwice(a: Poly, b: Poly)
    ensures Sum(b, Sum(a, b)) == a
  {
  }

  // For every byte string the checksum is the one word that, inverted, stands
  // for the remainder of the message (behind 32 zeros, its first 32 bits
  // inverted) by the generator.
  lemma ChecksumIsRemainder(bytes: seq<bv8>, word: bv32)
    ensures word == Checksum(bytes) <==> IsRemainder(Dividend(bytes), Sum(AllTerms(), OfWord(word)))
  {
    var register := Register(bytes);
    RegisterIsRemainder(bytes);
    ComplementTerms(register);
    if IsRemainder(Dividend(bytes), Sum(AllTerms(), OfWord(word))) {
      RemaindersAgree(Dividend(bytes), Sum(AllTerms(), OfWord(word)), OfWord(register));
      SameSum(AllTerms(), OfWord(word), OfWord(!register));
      SameWord(word, !register);
    }
  }

  lemma RegisterIsRemainder(bytes: seq<bv8>)
    ensures IsRemainder(Dividend(bytes), OfWord(Register(bytes)))
  {
    RegisterDivides(bytes);
    var quotient :| Gap(bytes) == Multiple(quotient);
    MovedOver(Dividend(bytes), OfWord(Register(bytes)), Multiple(quotient));
    WordIsBelow(Register(bytes));
  }

  lemma MovedOver(d: Poly, r: Poly, m: Poly)
    requires Sum(d, r) == m
    ensures d == Sum(m, r)
  {
  }

  lemma SameSum(a: Poly, x: Poly, y: Poly)
    requires Sum(a, x) == Sum(a, y)
    ensures x == y
  {
    forall e ensures e in x <==> e in y {
      assert e in Sum(a, x) <==> e in Sum(a, y);
    }
  }
}
