/**
 * The key generator of RSAvulnerableKeyGenerator.py: `getPrimePair` picks
 * two primes p < q < 2p, `generateKeys` forms n = p * q and phi = (p-1)(q-1),
 * draws a private exponent d of at most nbits/4 bits until it is coprime
 * to phi, and returns (e, n, d) with e the inverse of d modulo phi.
 *
 * Collaborators come in as parameters: p and q are the answers of the
 * prime generator, and `draws` is the stream of raw values behind
 * successive calls of `random.getrandbits`.
 */
module VulnerableKeyGenerator {
  import opened Wrappers
  import opened Arithmetic
  import opened PrimeSource

  /** The ways a call fails. */
  datatype KeyError =
    | BitsNotMultipleOfFour(bits: int)  // `assert bits % 4 == 0` failed for this value
    | NegativeBitCount(k: int)          // `random.getrandbits(k)` rejects k < 0
    | DrawsExhausted                    // the random source ran out before d was found

  datatype PrimePair = PrimePair(p: nat, q: nat)

  /** The triple returned by `generateKeys`, in the source's order. */
  datatype Key = Key(e: nat, n: nat, d: nat)

  function Pow2(k: nat): (r: nat)
    ensures r >= 1
  {
    if k == 0 then 1 else 2 * Pow2(k - 1)
  }

  /** `random.getrandbits(k)` when the source's raw value is `raw`: a value of at most k bits. */
  function GetRandBits(raw: nat, k: nat): (d: nat)
    ensures d < Pow2(k)
  {
    raw % Pow2(k)
  }

  /** Every value of at most k bits is a possible draw: the model does not narrow the source. */
  lemma GetRandBitsCoversRange(raw: nat, k: nat)
    requires raw < Pow2(k)
    ensures GetRandBits(raw, k) == raw
  {
    ModUnique(raw, Pow2(k), 0, raw);
  }

  /** p and q are answers `gen_prime` and then `gen_prime_range(p + 1, 2 * p)` may give. */
  ghost predicate PrimeGeneratorAnswers(p: nat, q: nat) {
    IsPrime(p) && GenPrimeRangeAnswer(p + 1, 2 * p, q)
  }

  /** Two primes with p < q < 2p. */
  ghost predicate ValidPair(pair: PrimePair) {
    IsPrime(pair.p) && IsPrime(pair.q) && pair.p < pair.q < 2 * pair.p
  }

  /**
   * getPrimePair(bits): the assertion on bits, then the two calls into the
   * prime generator, whose answers are p and q.
   */
  function GetPrimePair(bits: int, p: nat, q: nat): (r: Result<PrimePair, KeyError>)
    requires bits % 4 == 0 ==> PrimeGeneratorAnswers(p, q)
    ensures r.Ok? <==> bits % 4 == 0
    ensures r.Err? ==> r.error == BitsNotMultipleOfFour(bits)
    ensures r.Ok? ==> r.value == PrimePair(p, q) && ValidPair(r.value)
  {
    if bits % 4 != 0 then Err(BitsNotMultipleOfFour(bits)) else Ok(PrimePair(p, q))
  }

  /**
   * The loop's acceptance test on one draw: d = getrandbits(k) is coprime
   * to phi.  For phi >= 2 this rejects d == 0 and guarantees that d has an
   * inverse modulo phi.
   */
  predicate Accepted(raw: nat, k: nat, phi: nat)
    ensures Accepted(raw, k, phi) && phi >= 2 ==> GetRandBits(raw, k) >= 1
    ensures Accepted(raw, k, phi) && phi >= 2 ==> ModInverse(GetRandBits(raw, k), phi).Some?
  {
    var d := GetRandBits(raw, k);
    assert d == 0 && phi >= 2 ==> Gcd(d, phi) == Gcd(phi, 0) == phi;
    Gcd(d, phi) == 1
  }

  /** Index of the first draw the loop accepts, if any. */
  function FirstAccepted(draws: seq<nat>, k: nat, phi: nat): (r: Option<nat>)
    ensures r.Some? ==> r.value < |draws| && Accepted(draws[r.value], k, phi)
    ensures r.Some? ==> forall j :: 0 <= j < r.value ==> !Accepted(draws[j], k, phi)
    ensures r.None? ==> forall j :: 0 <= j < |draws| ==> !Accepted(draws[j], k, phi)
  {
    if |draws| == 0 then None
    else if Accepted(draws[0], k, phi) then Some(0)
    else
      match FirstAccepted(draws[1..], k, phi)
      case None => None
      case Some(i) => Some(i + 1)
  }

  /** phi = (p-1)(q-1) is at least 2 and equals n - p - q + 1. */
  lemma TotientOfPair(pair: PrimePair)
    requires ValidPair(pair)
    ensures Totient(pair.p, pair.q) >= 2
    ensures Totient(pair.p, pair.q) == pair.p * pair.q - pair.p - pair.q + 1
  {
    assert (pair.p - 1) * (pair.q - 1) >= 1 * (pair.q - 1);
  }

  /**
   * What generateKeys(nbits) returns, given the primes and the random draws,
   * with both assertions enabled.  For nbits < 0 the oracle still answers a
   * prime, so NegativeBitCount is this model's outcome for that case.
   */
  function KeyGen(nbits: int, p: nat, q: nat, draws: seq<nat>): (r: Result<Key, KeyError>)
    requires nbits % 4 == 0 && (nbits / 2) % 4 == 0 ==> PrimeGeneratorAnswers(p, q)
    ensures r.Err? && r.error.NegativeBitCount? <==> nbits % 8 == 0 && nbits < 0
    ensures r.Err? && r.error.NegativeBitCount? ==> r.error.k == nbits / 4
    ensures r.Ok? ==> nbits % 8 == 0 && nbits >= 0 && ValidPair(PrimePair(p, q))
  {
    if nbits % 4 != 0 then Err(BitsNotMultipleOfFour(nbits))
    else
      HalfOfMultipleOfFour(nbits);
      match GetPrimePair(nbits / 2, p, q)
      case Err(err) => Err(err)
      case Ok(pair) =>
        if nbits / 4 < 0 then Err(NegativeBitCount(nbits / 4))
        else DeriveKey(pair, nbits / 4, draws)
  }

  /** The rest of generateKeys once the pair is fixed: n, phi, the search for d, and e. */
  function DeriveKey(pair: PrimePair, k: nat, draws: seq<nat>): (r: Result<Key, KeyError>)
    requires ValidPair(pair)
    ensures r.Ok? || r == Err(DrawsExhausted)
    ensures r.Ok? ==> IsKeyOver(r.value, pair, k)
  {
    TotientOfPair(pair);
    var phi: nat := Totient(pair.p, pair.q);
    match FirstAccepted(draws, k, phi)
    case None => Err(DrawsExhausted)
    case Some(i) =>
      var d := GetRandBits(draws[i], k);
      InverseOfAccepted(d, phi);
      Ok(Key(ModInverse(d, phi).value, pair.p * pair.q, d))
  }

  /**
   * generateKeys(nbits) with the prime generator's answers p, q and the
   * raw values `draws` of the random source.
   */
  method GenerateKeys(nbits: int, p: nat, q: nat, draws: seq<nat>) returns (r: Result<Key, KeyError>)
    requires nbits % 4 == 0 && (nbits / 2) % 4 == 0 ==> PrimeGeneratorAnswers(p, q)
    ensures r == KeyGen(nbits, p, q, draws)
  {
    if nbits % 4 != 0 {
      return Err(BitsNotMultipleOfFour(nbits));
    }
    var pair := GetPrimePair(nbits / 2, p, q);
    if pair.Err? {
      return Err(pair.error);
    }
    TotientOfPair(pair.value);
    var n := pair.value.p * pair.value.q;
    var phi: nat := Totient(pair.value.p, pair.value.q);
    var k := nbits / 4;
    if k < 0 {
      return Err(NegativeBitCount(k));
    }
    var goodD := false;
    var d := 0;
    var i := 0;
    while !goodD
      invariant 0 <= i <= |draws|
      invariant forall j :: 0 <= j < i - 1 ==> !Accepted(draws[j], k, phi)
      invariant goodD ==> 0 < i && d == GetRandBits(draws[i - 1], k) && Gcd(d, phi) == 1
      invariant !goodD && 0 < i ==> !Accepted(draws[i - 1], k, phi)
      decreases |draws| - i
    {
      if i == |draws| {
        return Err(DrawsExhausted);
      }
      d := GetRandBits(draws[i], k);
      i := i + 1;
      if Gcd(d, phi) == 1 {
        goodD := true;
      }
    }
    var e := ModInverse(d, phi).value;
    return Ok(Key(e, n, d));
  }

  // Properties of generateKeys

  /**
   * The call gets past both assertions exactly when nbits is a multiple of 8:
   * RSAvulnerableKeyGenerator.py:64 checks nbits % 4 and :47 checks (nbits / 2) % 4.
   */
  lemma BitLengthAccepted(nbits: int, p: nat, q: nat, draws: seq<nat>)
    requires nbits % 4 == 0 && (nbits / 2) % 4 == 0 ==> PrimeGeneratorAnswers(p, q)
    ensures KeyGen(nbits, p, q, draws).Err? && KeyGen(nbits, p, q, draws).error.BitsNotMultipleOfFour?
            <==> nbits % 8 != 0
    ensures nbits % 4 != 0 ==> KeyGen(nbits, p, q, draws) == Err(BitsNotMultipleOfFour(nbits))
    ensures nbits % 4 == 0 && nbits % 8 != 0 ==> KeyGen(nbits, p, q, draws) == Err(BitsNotMultipleOfFour(nbits / 2))
  {
    if nbits % 4 == 0 {
      HalfOfMultipleOfFour(nbits);
    }
  }

  lemma HalfOfMultipleOfFour(nbits: int)
    requires nbits % 4 == 0
    ensures (nbits / 2) % 4 == 0 <==> nbits % 8 == 0
  {
    var t := nbits / 4;
    assert nbits == 4 * t;
    ModUnique(nbits, 2, 2 * t, 0);
    if t % 2 == 0 {
      ModUnique(2 * t, 4, t / 2, 0);
      ModUnique(nbits, 8, t / 2, 0);
    } else {
      ModUnique(2 * t, 4, t / 2, 2);
      ModUnique(nbits, 8, t / 2, 4);
    }
  }

  /** 1028 passes the check of generateKeys and fails the one of getPrimePair on 514. */
  lemma BitLength1028Rejected(p: nat, q: nat, draws: seq<nat>)
    ensures KeyGen(1028, p, q, draws) == Err(BitsNotMultipleOfFour(514))
  {
  }

  /** The prime pair fixes the size of n: p^2 < n < 2 p^2. */
  lemma ModulusBounds(pair: PrimePair)
    requires pair.p < pair.q < 2 * pair.p
    ensures pair.p * pair.p < pair.p * pair.q < 2 * (pair.p * pair.p)
  {
    var p, q := pair.p, pair.q;
    MulStrictMono(p, p, q);
    MulStrictMono(p, q, 2 * p);
    assert p * (2 * p) == 2 * (p * p);
  }

  lemma MulStrictMono(a: int, x: int, y: int)
    requires a > 0 && x < y
    ensures a * x < a * y
  {
  }

  /** A key is an RSA key over the pair: n = pq, d coprime to phi with at most k bits, e = d^-1 mod phi. */
  ghost predicate IsKeyOver(key: Key, pair: PrimePair, k: nat) {
    var phi := Totient(pair.p, pair.q);
    && key.n == pair.p * pair.q
    && phi >= 2
    && 1 <= key.d < Pow2(k)
    && Gcd(key.d, phi) == 1
    && key.e < phi
    && (key.e * key.d) % phi == 1
  }

  /** Every key generateKeys returns is an RSA key over the generator's primes with p^2 < n < 2 p^2. */
  lemma KeyGenSound(nbits: int, p: nat, q: nat, draws: seq<nat>)
    requires nbits % 4 == 0 && (nbits / 2) % 4 == 0 ==> PrimeGeneratorAnswers(p, q)
    requires KeyGen(nbits, p, q, draws).Ok?
    ensures nbits % 8 == 0 && nbits >= 0
    ensures ValidPair(PrimePair(p, q))
    ensures IsKeyOver(KeyGen(nbits, p, q, draws).value, PrimePair(p, q), nbits / 4)
    ensures p * p < KeyGen(nbits, p, q, draws).value.n < 2 * (p * p)
  {
    HalfOfMultipleOfFour(nbits);
    var pair := PrimePair(p, q);
    assert KeyGen(nbits, p, q, draws) == DeriveKey(pair, nbits / 4, draws);
    ModulusBounds(pair);
  }

  /** For phi >= 2 and d coprime to phi, d > 0 and ModInverse gives e < phi with e * d % phi == 1. */
  lemma InverseOfAccepted(d: nat, phi: nat)
    requires phi >= 2 && Gcd(d, phi) == 1
    ensures d >= 1
    ensures ModInverse(d, phi).value < phi && (ModInverse(d, phi).value * d) % phi == 1
  {
    assert Gcd(0, phi) == Gcd(phi, 0) == phi;
    var e := ModInverse(d, phi).value;
    assert (d * e) % phi == 1 % phi;
    assert 1 % phi == 1 by { ModUnique(1, phi, 0, 1); }
    assert e * d == d * e;
  }

  /** The draw d == 0 is always rejected: gcd(0, phi) = phi >= 2. */
  lemma ZeroNeverAccepted(pair: PrimePair)
    requires ValidPair(pair)
    ensures Gcd(0, Totient(pair.p, pair.q)) != 1
  {
    TotientOfPair(pair);
    var phi := Totient(pair.p, pair.q);
    assert Gcd(0, phi) == Gcd(phi, 0) == phi;
  }

  /** The returned d is the first accepted draw: every earlier draw was rejected. */
  lemma KeyGenTakesFirstCoprimeDraw(nbits: int, p: nat, q: nat, draws: seq<nat>)
    requires nbits % 4 == 0 && (nbits / 2) % 4 == 0 ==> PrimeGeneratorAnswers(p, q)
    requires KeyGen(nbits, p, q, draws).Ok?
    ensures exists i :: 0 <= i < |draws| && KeyGen(nbits, p, q, draws).value.d == GetRandBits(draws[i], nbits / 4)
              && forall j :: 0 <= j < i ==> Gcd(GetRandBits(draws[j], nbits / 4), Totient(p, q)) != 1
  {
    var i := FirstAccepted(draws, nbits / 4, Totient(p, q)).value;
    assert forall j :: 0 <= j < i ==> !Accepted(draws[j], nbits / 4, Totient(p, q));
  }

  /** The loop fails to find d exactly when no draw is coprime to phi. */
  lemma KeyGenExhausted(nbits: int, p: nat, q: nat, draws: seq<nat>)
    requires nbits % 8 == 0 && nbits >= 0 && PrimeGeneratorAnswers(p, q)
    ensures KeyGen(nbits, p, q, draws) == Err(DrawsExhausted)
            <==> forall j :: 0 <= j < |draws| ==> Gcd(GetRandBits(draws[j], nbits / 4), Totient(p, q)) != 1
  {
    TotientOfPair(PrimePair(p, q));
    HalfOfMultipleOfFour(nbits);
    assert KeyGen(nbits, p, q, draws) == DeriveKey(PrimePair(p, q), nbits / 4, draws);
  }

  /**
   * Conversely, for nbits a non-negative multiple of 8 and answers the prime
   * generator may give, a key is returned exactly when some draw is accepted.
   */
  lemma KeyGenSucceeds(nbits: int, p: nat, q: nat, draws: seq<nat>)
    requires nbits % 8 == 0 && nbits >= 0 && PrimeGeneratorAnswers(p, q)
    ensures KeyGen(nbits, p, q, draws).Ok?
            <==> exists j :: 0 <= j < |draws| && Accepted(draws[j], nbits / 4, Totient(p, q))
  {
    TotientOfPair(PrimePair(p, q));
    HalfOfMultipleOfFour(nbits);
    var k: nat := nbits / 4;
    var phi: nat := Totient(p, q);
    assert KeyGen(nbits, p, q, draws) == DeriveKey(PrimePair(p, q), k, draws);
    match FirstAccepted(draws, k, phi)
    case None =>
      assert !DeriveKey(PrimePair(p, q), k, draws).Ok?;
    case Some(i) =>
      assert DeriveKey(PrimePair(p, q), k, draws).Ok?;
      assert Accepted(draws[i], k, phi);
  }

  /**
   * With nbits == 0 and getrandbits(0) == 0 (the behaviour of Python 3.9 and
   * later), every draw is 0 and is rejected, so no draw ever yields a key.
   */
  lemma ZeroBitsNeverSucceed(p: nat, q: nat, draws: seq<nat>)
    requires PrimeGeneratorAnswers(p, q)
    ensures KeyGen(0, p, q, draws) == Err(DrawsExhausted)
  {
    ZeroNeverAccepted(PrimePair(p, q));
    forall j | 0 <= j < |draws|
      ensures Gcd(GetRandBits(draws[j], 0), Totient(p, q)) != 1
    {
      assert GetRandBits(draws[j], 0) == 0;
    }
    KeyGenExhausted(0, p, q, draws);
  }

  /**
   * The Wiener condition 36 d^4 < n is not checked: with nbits = 8, the
   * 4-bit prime p = 11, q = 17 from (11, 22) and a first draw of 3, the call
   * returns (107, 187, 3), and 36 * 3^4 = 2916 >= 187.
   */
  lemma WienerBoundNotEnforced()
    ensures PrimeGeneratorAnswers(11, 17)
    ensures Pow2(3) <= 11 < Pow2(4)
    ensures KeyGen(8, 11, 17, [3]) == Ok(Key(107, 187, 3))
    ensures 36 * (3 * 3 * 3 * 3) >= 187
  {
    SmallPrimes();
    assert GetRandBits(3, 2) == 3 by { GetRandBitsCoversRange(3, 2); }
    assert Gcd(3, 160) == 1;
    assert Accepted(3, 2, 160);
    assert FirstAccepted([3], 2, 160) == Some(0);
    assert ModInverse(3, 160) == Some(107) by {
      assert (3 * 107) % 160 == 1;
      InverseUnique(3, 160, ModInverse(3, 160).value, 107);
    }
  }

  lemma SmallPrimes()
    ensures IsPrime(11) && IsPrime(17)
  {
    forall k | 1 < k < 17 ensures !Divides(k, 17) && (k < 11 ==> !Divides(k, 11)) {
      assert 1 < k < 11 || 11 <= k < 17;
    }
  }

  lemma {:induction false} Pow2Add(a: nat, b: nat)
    ensures Pow2(a + b) == Pow2(a) * Pow2(b)
    decreases a
  {
    if a > 0 {
      Pow2Add(a - 1, b);
    }
  }

  lemma SquareMonotone(x: nat, y: nat)
    requires x <= y
    ensures x * x <= y * y
  {
    assert x * x <= x * y <= y * y;
  }

  /**
   * If p has exactly b bits, as the prime generator is documented to ensure
   * for gen_prime(b), then n = pq has between 2b - 1 and 2b + 1 bits.
   */
  lemma ModulusBitLength(pair: PrimePair, b: nat)
    requires pair.p < pair.q < 2 * pair.p && b >= 1
    requires Pow2(b - 1) <= pair.p < Pow2(b)
    ensures Pow2(2 * b - 2) < pair.p * pair.q < Pow2(2 * b + 1)
  {
    var p, n := pair.p, pair.p * pair.q;
    var lo, hi := Pow2(b - 1), Pow2(b);
    assert Pow2(2 * b - 2) == lo * lo by { Pow2Add(b - 1, b - 1); }
    assert Pow2(2 * b) == hi * hi by { Pow2Add(b, b); }
    assert lo * lo <= p * p by { SquareMonotone(lo, p); }
    assert p * p < hi * hi by { SquareStrictMonotone(p, hi); }
    assert p * p < n < 2 * (p * p) by { ModulusBounds(pair); }
    assert Pow2(2 * b + 1) == 2 * Pow2(2 * b);
    Sandwich(lo * lo, p * p, n, hi * hi);
  }

  /** lo <= s < n < 2s and s < hi give lo < n < 2 hi. */
  lemma Sandwich(lo: int, s: int, n: int, hi: int)
    requires lo <= s < n < 2 * s && s < hi
    ensures lo < n < 2 * hi
  {
  }

  lemma SquareStrictMonotone(x: nat, y: nat)
    requires x < y
    ensures x * x < y * y
  {
    assert x * x <= x * y < y * y;
  }

  /**
   * The upper end is reached: with b = 4, p = 13 (4 bits) and q = 23 in
   * (13, 26), n = 299 has 9 = 2b + 1 bits, so "n is nbits long" is not guaranteed.
   */
  lemma ModulusMayExceedRequestedLength()
    ensures PrimeGeneratorAnswers(13, 23)
    ensures Pow2(3) <= 13 < Pow2(4)
    ensures 13 * 23 >= Pow2(8)
  {
    forall k | 1 < k < 23 ensures !Divides(k, 23) && (k < 13 ==> !Divides(k, 13)) {
      assert 1 < k < 13 || 13 <= k < 23;
    }
  }
}
