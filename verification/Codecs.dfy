/** Big-endian words, the packed swap path, and the quote carried in a revert. */
module Codecs {
  import opened Types
  import opened Numbers

  const TWO_24: nat := 0x100_0000
  const TWO_127: int := 0x8000_0000_0000_0000_0000_0000_0000_0000
  const TWO_128: int := 0x1_0000_0000_0000_0000_0000_0000_0000_0000

  type U24 = n: nat | n < TWO_24

  // ---- big-endian numbers ----

  function Pow256(k: nat): (p: nat)
    ensures p > 0
  {
    if k == 0 then 1 else 256 * Pow256(k - 1)
  }

  /** The low `k` bytes of `n`, most significant first. */
  function ToBytes(n: nat, k: nat): (s: Bytes)
    ensures |s| == k
  {
    if k == 0 then [] else ToBytes(n / 256, k - 1) + [n % 256]
  }

  function FromBytes(s: Bytes): nat {
    if s == [] then 0 else 256 * FromBytes(s[..|s| - 1]) + s[|s| - 1]
  }

  lemma {:induction false} BytesBounded(s: Bytes)
    ensures FromBytes(s) < Pow256(|s|)
    decreases |s|
  {
    if s != [] {
      BytesBounded(s[..|s| - 1]);
    }
  }

  lemma DivModStep(n: nat, p: nat)
    requires p > 0
    ensures n % (256 * p) == 256 * ((n / 256) % p) + n % 256
  {
    var q, r := (n / 256) / p, (n / 256) % p;
    assert n == 256 * (n / 256) + n % 256;
    assert n / 256 == p * q + r;
    assert n == (256 * p) * q + (256 * r + n % 256) by {
      assert 256 * (p * q + r) == (256 * p) * q + 256 * r;
    }
    assert 256 * r + 256 <= 256 * p;
    QuotientIs(n, 256 * p, q, 256 * r + n % 256);
  }

  /** Reading back what was written gives the number, up to the bytes kept. */
  lemma {:induction false} FromToBytes(n: nat, k: nat)
    ensures FromBytes(ToBytes(n, k)) == n % Pow256(k)
    decreases k
  {
    if k > 0 {
      FromToBytes(n / 256, k - 1);
      assert ToBytes(n, k)[..k - 1] == ToBytes(n / 256, k - 1);
      DivModStep(n, Pow256(k - 1));
    }
  }

  /** Writing what was read gives the bytes. */
  lemma {:induction false} ToFromBytes(s: Bytes)
    ensures ToBytes(FromBytes(s), |s|) == s
    decreases |s|
  {
    if s != [] {
      var n := |s| - 1;
      ToFromBytes(s[..n]);
      assert FromBytes(s) / 256 == FromBytes(s[..n]) && FromBytes(s) % 256 == s[n];
      assert s == s[..n] + [s[n]];
    }
  }

  /** The last bytes of a number are the number in fewer bytes. */
  lemma {:induction false} LowBytes(n: nat, k: nat, j: nat)
    requires j <= k
    ensures ToBytes(n, k)[k - j..] == ToBytes(n, j)
    decreases j
  {
    if j > 0 {
      LowBytes(n / 256, k - 1, j - 1);
      assert ToBytes(n, k)[k - j..] == ToBytes(n / 256, k - 1)[k - j..] + [n % 256];
    }
  }

  /** The most significant byte comes first. */
  lemma {:induction false} BigEndian(n: nat, k: nat, j: nat)
    requires j < k
    ensures ToBytes(n, k)[j] == n / Pow256(k - 1 - j) % 256
    decreases k
  {
    if j < k - 1 {
      BigEndian(n / 256, k - 1, j);
      DivDiv(n, Pow256(k - 2 - j));
    }
  }

  lemma DivDiv(n: nat, p: nat)
    requires p > 0
    ensures n / 256 / p == n / (256 * p)
  {
    var q, r := n / 256 / p, n / 256 % p;
    assert n / 256 == p * q + r;
    assert n == (256 * p) * q + (256 * r + n % 256) by {
      assert 256 * (p * q + r) == (256 * p) * q + 256 * r;
    }
    assert 256 * r + 256 <= 256 * p;
    QuotientIs(n, 256 * p, q, 256 * r + n % 256);
  }

  lemma Powers()
    ensures Pow256(3) == TWO_24 && Pow256(16) == TWO_128 && Pow256(20) == TWO_160 && Pow256(32) == TWO_256
  {
    assert Pow256(8) == TWO_64;
    assert Pow256(16) == TWO_64 * TWO_64;
    assert Pow256(24) == TWO_64 * TWO_64 * TWO_64;
  }

  // ---- the path of a multi-hop swap ----

  /** Tokens of 20 bytes with fees of 3 bytes between them. */
  function PathOf(tokens: seq<Address>, fees: seq<U24>): Bytes
    requires |tokens| == |fees| + 1
  {
    if fees == [] then ToBytes(tokens[0], 20)
    else ToBytes(tokens[0], 20) + ToBytes(fees[0], 3) + PathOf(tokens[1..], fees[1..])
  }

  method EncodePath(tokens: seq<Address>, fees: seq<U24>) returns (path: Bytes)
    requires |tokens| == |fees| + 1
    ensures path == PathOf(tokens, fees)
    ensures |path| == 23 * |fees| + 20
    ensures DecodePath(path) == Some((tokens, fees))
  {
    path := [];
    for i := 0 to |fees|
      invariant path + PathOf(tokens[i..], fees[i..]) == PathOf(tokens, fees)
    {
      assert tokens[i..][1..] == tokens[i + 1..] && fees[i..][1..] == fees[i + 1..];
      assert path + PathOf(tokens[i..], fees[i..])
             == (path + ToBytes(tokens[i], 20) + ToBytes(fees[i], 3)) + PathOf(tokens[i + 1..], fees[i + 1..]);
      path := path + ToBytes(tokens[i], 20);
      path := path + ToBytes(fees[i], 3);
    }
    path := path + ToBytes(tokens[|tokens| - 1], 20);
    PathRoundTrip(tokens, fees);
  }

  function AddressOf(s: Bytes): Address
    requires |s| == 20
  {
    BytesBounded(s);
    Powers();
    FromBytes(s)
  }

  function FeeOf(s: Bytes): U24
    requires |s| == 3
  {
    BytesBounded(s);
    Powers();
    FromBytes(s)
  }

  /** A path read from left to right. */
  function DecodePath(path: Bytes): (r: Option<(seq<Address>, seq<U24>)>)
    ensures r.Some? ==> |r.value.0| == |r.value.1| + 1
    decreases |path|
  {
    if |path| == 20 then Some(([AddressOf(path)], []))
    else if |path| < 43 then None
    else match DecodePath(path[23..])
      case None => None
      case Some((tokens, fees)) => Some(([AddressOf(path[..20])] + tokens, [FeeOf(path[20..23])] + fees))
  }

  lemma SmallNumber(n: nat, k: nat)
    requires n < Pow256(k)
    ensures FromBytes(ToBytes(n, k)) == n
  {
    FromToBytes(n, k);
  }

  lemma ReadBack(a: Address, fee: U24)
    ensures AddressOf(ToBytes(a, 20)) == a && FeeOf(ToBytes(fee, 3)) == fee
  {
    Powers();
    SmallNumber(a, 20);
    SmallNumber(fee, 3);
  }

  /** The decoder recovers exactly the tokens and fees of any path, so the encoding is injective. */
  lemma {:induction false} PathRoundTrip(tokens: seq<Address>, fees: seq<U24>)
    requires |tokens| == |fees| + 1
    ensures DecodePath(PathOf(tokens, fees)) == Some((tokens, fees))
    ensures |PathOf(tokens, fees)| == 23 * |fees| + 20
    decreases |fees|
  {
    if fees == [] {
      ReadBack(tokens[0], 0);
      assert tokens == [tokens[0]];
    } else {
      ReadBack(tokens[0], fees[0]);
      PathRoundTrip(tokens[1..], fees[1..]);
      var path := PathOf(tokens, fees);
      assert path[..20] == ToBytes(tokens[0], 20);
      assert path[20..23] == ToBytes(fees[0], 3);
      assert path[23..] == PathOf(tokens[1..], fees[1..]);
      assert [tokens[0]] + tokens[1..] == tokens && [fees[0]] + fees[1..] == fees;
    }
  }

  /** Every byte of a path: token `i` stands at 23 * i, fee `i` 20 bytes later, both most significant byte first. */
  lemma {:induction false} PathBytes(tokens: seq<Address>, fees: seq<U24>, i: nat, j: nat)
    requires |tokens| == |fees| + 1 && i <= |fees|
    ensures |PathOf(tokens, fees)| == 23 * |fees| + 20
    ensures j < 20 ==> PathOf(tokens, fees)[23 * i + j] == tokens[i] / Pow256(19 - j) % 256
    ensures i < |fees| && j < 3 ==> PathOf(tokens, fees)[23 * i + 20 + j] == fees[i] / Pow256(2 - j) % 256
    decreases i
  {
    PathRoundTrip(tokens, fees);
    if i > 0 {
      PathBytes(tokens[1..], fees[1..], i - 1, j);
      assert PathOf(tokens, fees)[23..] == PathOf(tokens[1..], fees[1..]);
    } else {
      if j < 20 {
        BigEndian(tokens[0], 20, j);
      }
      if fees != [] && j < 3 {
        BigEndian(fees[0], 3, j);
      }
    }
  }

  /** Conversely, everything the decoder accepts is an encoding, and it accepts by length alone. */
  lemma {:induction false} DecodedPathIsEncoded(path: Bytes)
    ensures DecodePath(path).Some? <==> |path| >= 20 && (|path| - 20) % 23 == 0
    ensures DecodePath(path).Some? ==> PathOf(DecodePath(path).value.0, DecodePath(path).value.1) == path
    decreases |path|
  {
    if |path| == 20 {
      ToFromBytes(path);
    } else if |path| >= 43 {
      DecodedPathIsEncoded(path[23..]);
      if DecodePath(path).Some? {
        var (tokens, fees) := DecodePath(path[23..]).value;
        var all, allFees := [AddressOf(path[..20])] + tokens, [FeeOf(path[20..23])] + fees;
        ToFromBytes(path[..20]);
        ToFromBytes(path[20..23]);
        assert all[1..] == tokens && allFees[1..] == fees;
        assert path == path[..20] + path[20..23] + path[23..];
      }
    }
  }

  // ---- the quote in a revert ----

  type Int256 = n: int | -(TWO_256 / 2) <= n < TWO_256 / 2

  /** A signed word in two's complement. */
  function Word(n: Int256): Bytes {
    ToBytes(n % TWO_256, 32)
  }

  function Zeros(k: nat): (s: Bytes)
    ensures |s| == k
  {
    seq(k, i => 0)
  }

  /** The single argument of a call or error with one dynamic byte string. */
  function AbiString(s: Bytes): Bytes {
    ToBytes(32, 32) + ToBytes(|s|, 32) + s + Zeros((32 - |s| % 32) % 32)
  }

  /** The selector of Error(string). */
  const ERROR_SELECTOR: Bytes := [0x08, 0xc3, 0x79, 0xa0]

  /** What the quoter's swap callback reverts with. */
  function RevertData(amount0: Int256, amount1: Int256): Bytes {
    ERROR_SELECTOR + AbiString(Word(amount0) + Word(amount1))
  }

  /** `n` as a signed 128-bit number, keeping the low bits. */
  function Wrapped128(n: int): (r: int)
    ensures -TWO_127 <= r < TWO_127
    ensures -TWO_127 <= n < TWO_127 ==> r == n
  {
    (n + TWO_127) % TWO_128 - TWO_127
  }

  /** The low half of a word, read as a signed number; the high half is not looked at. */
  function ReadI128(word: Bytes): int
    requires |word| == 32
  {
    Wrapped128(FromBytes(word[16..]))
  }

  datatype Quote = Amount(value: nat) | QuotePanics

  /** Negation and the cast to unsigned; the smallest number panics when overflow is checked and wraps to
      itself when it is not. */
  function NegateToU128(n: int, overflowChecks: bool): Quote
    requires -TWO_127 <= n < TWO_127
  {
    if n == -TWO_127 && overflowChecks then QuotePanics else Amount((-n) % TWO_128)
  }

  function Min(a: int, b: int): int {
    if a <= b then a else b
  }

  /** The quote of two deltas. */
  function QuoteOf(amount0: int, amount1: int, overflowChecks: bool): Quote {
    NegateToU128(Min(Wrapped128(amount0), Wrapped128(amount1)), overflowChecks)
  }

  /** The decoder: the last 64 bytes are the two deltas, and the amount out is minus the smaller. */
  function DecodeGetAmountOut(response: Bytes, overflowChecks: bool): Quote {
    if |response| < 64 then QuotePanics
    else
      var last := response[|response| - 64..];
      var a, b := ReadI128(last[..32]), ReadI128(last[32..]);
      NegateToU128(Min(a, b), overflowChecks)
  }

  lemma Mod128OfMod256(n: int)
    ensures (n % TWO_256) % TWO_128 == n % TWO_128
  {
    var q, r := n / TWO_256, n % TWO_256;
    assert n == TWO_256 * q + r;
    assert TWO_256 == TWO_128 * TWO_128;
    assert n == TWO_128 * (TWO_128 * q) + r;
    ModShift(r, TWO_128, TWO_128 * q);
  }

  lemma WordLow(n: Int256)
    ensures FromBytes(Word(n)[16..]) == n % TWO_128
  {
    var u := n % TWO_256;
    LowBytes(u, 32, 16);
    FromToBytes(u, 16);
    Powers();
    Mod128OfMod256(n);
  }

  lemma WrapLow(n: int)
    ensures Wrapped128(n % TWO_128) == Wrapped128(n)
  {
    ModAdd(n, TWO_127, TWO_128);
  }

  /** A word is read as its number wrapped to 128 bits. */
  lemma ReadWord(n: Int256)
    ensures ReadI128(Word(n)) == Wrapped128(n)
  {
    WordLow(n);
    WrapLow(n);
  }

  /** The argument of Error(string), read as a caller reads it: selector, offset of the string, its length, its
      bytes. */
  function DecodeError(data: Bytes): Option<Bytes> {
    if |data| < 36 || data[..4] != [0x08, 0xc3, 0x79, 0xa0] then None
    else
      var start := 4 + FromBytes(data[4..36]);
      if |data| < start + 32 then None
      else
        var length := FromBytes(data[start..start + 32]);
        if |data| < start + 32 + length then None else Some(data[start + 32..start + 32 + length])
  }

  lemma ReadError(offset: Bytes, length: Bytes, s: Bytes)
    requires |offset| == 32 && FromBytes(offset) == 32 && |length| == 32 && FromBytes(length) == |s|
    ensures DecodeError([0x08, 0xc3, 0x79, 0xa0] + offset + length + s) == Some(s)
  {
    var data := [0x08, 0xc3, 0x79, 0xa0] + offset + length + s;
    assert data[4..36] == offset;
    assert data[36..68] == length;
    assert data[68..68 + |s|] == s;
  }

  /** The revert data is that of Error(string) on the two words, and nothing follows them. */
  lemma RevertIsError(amount0: Int256, amount1: Int256)
    ensures DecodeError(RevertData(amount0, amount1)) == Some(Word(amount0) + Word(amount1))
    ensures |RevertData(amount0, amount1)| == 132
  {
    var s := Word(amount0) + Word(amount1);
    Powers();
    SmallNumber(32, 32);
    SmallNumber(64, 32);
    ReadError(ToBytes(32, 32), ToBytes(64, 32), s);
    RevertLayout(amount0, amount1);
  }

  lemma RevertLayout(amount0: Int256, amount1: Int256)
    ensures RevertData(amount0, amount1)
            == [0x08, 0xc3, 0x79, 0xa0] + ToBytes(32, 32) + ToBytes(64, 32) + (Word(amount0) + Word(amount1))
  {
    var s := Word(amount0) + Word(amount1);
    assert Zeros((32 - |s| % 32) % 32) == [];
    assert AbiString(s) == ToBytes(32, 32) + ToBytes(64, 32) + s;
  }

  /** The decoder panics exactly on fewer than 64 bytes, and, if overflow is checked, on the smallest number,
      which is smaller than any other. */
  lemma QuotePanicsExactly(response: Bytes, overflowChecks: bool)
    ensures DecodeGetAmountOut(response, overflowChecks).QuotePanics? <==>
            || |response| < 64
            || (overflowChecks
                && (|| ReadI128(response[|response| - 64..|response| - 32]) == -TWO_127
                    || ReadI128(response[|response| - 32..]) == -TWO_127))
  {
    if |response| >= 64 {
      var last := response[|response| - 64..];
      assert last[..32] == response[|response| - 64..|response| - 32] && last[32..] == response[|response| - 32..];
    }
  }

  /** Otherwise it returns minus the smaller of the two last words modulo 2^128, whatever the words are. */
  lemma QuoteIsMinusTheSmaller(response: Bytes, overflowChecks: bool)
    requires DecodeGetAmountOut(response, overflowChecks).Amount? && |response| >= 64
    ensures var value := DecodeGetAmountOut(response, overflowChecks).value;
            var a, b := ReadI128(response[|response| - 64..|response| - 32]), ReadI128(response[|response| - 32..]);
            value < TWO_128 && (if a <= b then value + a else value + b) % TWO_128 == 0
  {
    var last := response[|response| - 64..];
    assert last[..32] == response[|response| - 64..|response| - 32] && last[32..] == response[|response| - 32..];
  }

  /** The deltas sit in the last 64 bytes of the revert data. */
  lemma RevertEndsWithDeltas(amount0: Int256, amount1: Int256)
    ensures exists prefix :: RevertData(amount0, amount1) == prefix + Word(amount0) + Word(amount1)
  {
    var body := Word(amount0) + Word(amount1);
    var prefix := ERROR_SELECTOR + ToBytes(32, 32) + ToBytes(64, 32);
    assert Zeros((32 - |body| % 32) % 32) == [];
    assert RevertData(amount0, amount1) == prefix + Word(amount0) + Word(amount1);
  }

  lemma DecodeTwoWords(prefix: Bytes, amount0: Int256, amount1: Int256, overflowChecks: bool)
    ensures DecodeGetAmountOut(prefix + Word(amount0) + Word(amount1), overflowChecks)
            == QuoteOf(amount0, amount1, overflowChecks)
  {
    var response := prefix + Word(amount0) + Word(amount1);
    var last := response[|response| - 64..];
    assert last == Word(amount0) + Word(amount1);
    assert last[..32] == Word(amount0) && last[32..] == Word(amount1);
    ReadWord(amount0);
    ReadWord(amount1);
  }

  lemma DecodeRevertData(amount0: Int256, amount1: Int256, overflowChecks: bool)
    ensures DecodeGetAmountOut(RevertData(amount0, amount1), overflowChecks)
            == QuoteOf(amount0, amount1, overflowChecks)
  {
    RevertEndsWithDeltas(amount0, amount1);
    var prefix :| RevertData(amount0, amount1) == prefix + Word(amount0) + Word(amount1);
    DecodeTwoWords(prefix, amount0, amount1, overflowChecks);
  }

  lemma NegateExactly(m: int, n: int, overflowChecks: bool)
    requires m <= 0 && -TWO_127 <= n < TWO_127
    ensures NegateToU128(n, overflowChecks) == Amount(-m) <==>
            -m < TWO_128 && Wrapped128(m) == n && !(overflowChecks && n == -TWO_127)
  {
  }

  /** When the quote of two deltas is minus the smaller: it fits 128 bits, wrapping the deltas leaves the
      smaller one the smaller, and the negation does not overflow where overflow is checked. */
  predicate QuoteSurvives(amount0: int, amount1: int, overflowChecks: bool) {
    var m := Min(amount0, amount1);
    && -m < TWO_128
    && Wrapped128(m) == Min(Wrapped128(amount0), Wrapped128(amount1))
    && !(overflowChecks && Wrapped128(m) == -TWO_127)
  }

  lemma QuoteOfExactly(amount0: int, amount1: int, overflowChecks: bool)
    requires amount0 <= 0 || amount1 <= 0
    ensures QuoteOf(amount0, amount1, overflowChecks) == Amount(-Min(amount0, amount1))
            <==> QuoteSurvives(amount0, amount1, overflowChecks)
  {
    NegateExactly(Min(amount0, amount1), Min(Wrapped128(amount0), Wrapped128(amount1)), overflowChecks);
  }

  /** The quote of any two deltas of which one is not positive, whatever precedes them in the response: the
      decoder returns minus the smaller exactly if it survives. */
  lemma QuoteExactly(prefix: Bytes, amount0: Int256, amount1: Int256, overflowChecks: bool)
    requires amount0 <= 0 || amount1 <= 0
    ensures DecodeGetAmountOut(prefix + Word(amount0) + Word(amount1), overflowChecks) == Amount(-Min(amount0, amount1))
            <==> QuoteSurvives(amount0, amount1, overflowChecks)
    ensures DecodeGetAmountOut(RevertData(amount0, amount1), overflowChecks) == Amount(-Min(amount0, amount1))
            <==> QuoteSurvives(amount0, amount1, overflowChecks)
  {
    QuoteOfExactly(amount0, amount1, overflowChecks);
    DecodeTwoWords(prefix, amount0, amount1, overflowChecks);
    DecodeRevertData(amount0, amount1, overflowChecks);
  }

  lemma SmallQuoteSurvives(amount0: int, amount1: int, overflowChecks: bool)
    requires -TWO_127 < amount0 < TWO_127 && -TWO_127 < amount1 < TWO_127
    ensures QuoteSurvives(amount0, amount1, overflowChecks)
  {
  }

  /** Quote round trip: for deltas of less than 127 bits of which one is not positive, the amount out is
      exactly minus the smaller, whatever precedes the deltas and whether or not overflow is checked. */
  lemma QuoteRoundTrip(prefix: Bytes, amount0: Int256, amount1: Int256, overflowChecks: bool)
    requires -TWO_127 < amount0 < TWO_127 && -TWO_127 < amount1 < TWO_127
    requires amount0 <= 0 || amount1 <= 0
    ensures DecodeGetAmountOut(prefix + Word(amount0) + Word(amount1), overflowChecks) == Amount(-Min(amount0, amount1))
    ensures DecodeGetAmountOut(RevertData(amount0, amount1), overflowChecks) == Amount(-Min(amount0, amount1))
  {
    SmallQuoteSurvives(amount0, amount1, overflowChecks);
    QuoteExactly(prefix, amount0, amount1, overflowChecks);
  }

  /** When an amount received against a payment comes back: it fits 128 bits, and wrapping takes neither the
      payment below it nor it to a number whose negation overflows. */
  predicate PaymentSurvives(paid: int, received: int, overflowChecks: bool) {
    && received < TWO_128
    && Wrapped128(-received) <= Wrapped128(paid)
    && !(overflowChecks && Wrapped128(-received) == -TWO_127)
  }

  lemma PaymentIsQuote(paid: int, received: int, overflowChecks: bool)
    requires paid >= 0 && received >= 0
    ensures QuoteSurvives(paid, -received, overflowChecks) <==> PaymentSurvives(paid, received, overflowChecks)
    ensures QuoteSurvives(-received, paid, overflowChecks) <==> PaymentSurvives(paid, received, overflowChecks)
  {
    if paid == 0 && received == 0 {
      assert Wrapped128(0) == 0;
    }
  }

  lemma PaymentOut(paid: Int256, received: int, overflowChecks: bool)
    requires paid >= 0 && 0 <= received <= TWO_256 / 2
    ensures DecodeGetAmountOut(RevertData(paid, -received), overflowChecks) == Amount(received)
            <==> QuoteSurvives(paid, -received, overflowChecks)
  {
    assert Min(paid, -received) == -received;
    QuoteExactly([], paid, -received, overflowChecks);
  }

  lemma PaymentBack(paid: Int256, received: int, overflowChecks: bool)
    requires paid >= 0 && 0 <= received <= TWO_256 / 2
    ensures DecodeGetAmountOut(RevertData(-received, paid), overflowChecks) == Amount(received)
            <==> QuoteSurvives(-received, paid, overflowChecks)
  {
    assert Min(-received, paid) == -received;
    QuoteExactly([], -received, paid, overflowChecks);
  }

  /** A swap of any size, in either direction: exactly when the amount received comes back. */
  lemma QuoteOfLargePayment(paid: Int256, received: int, overflowChecks: bool)
    requires paid >= 0 && 0 <= received <= TWO_256 / 2
    ensures DecodeGetAmountOut(RevertData(paid, -received), overflowChecks) == Amount(received)
            <==> PaymentSurvives(paid, received, overflowChecks)
    ensures DecodeGetAmountOut(RevertData(-received, paid), overflowChecks) == Amount(received)
            <==> PaymentSurvives(paid, received, overflowChecks)
  {
    PaymentIsQuote(paid, received, overflowChecks);
    PaymentOut(paid, received, overflowChecks);
    PaymentBack(paid, received, overflowChecks);
  }

  /** The smallest payment that is misread: 2^127 paid for nothing reads as 2^127 received, or panics. */
  lemma LargePaymentMisread(overflowChecks: bool)
    ensures DecodeGetAmountOut(RevertData(TWO_127, 0), overflowChecks)
            == if overflowChecks then QuotePanics else Amount(TWO_127)
  {
    assert Wrapped128(TWO_127) == -TWO_127 && Wrapped128(0) == 0;
    assert QuoteOf(TWO_127, 0, overflowChecks) == if overflowChecks then QuotePanics else Amount(TWO_127);
    DecodeRevertData(TWO_127, 0, overflowChecks);
  }
}
