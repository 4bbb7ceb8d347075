/** Hexadecimal texts: digits, byte strings, and the canonical quantities of the
    Ethereum JSON-RPC specification ("Hex value encoding"). */
module Hex {
  import opened Types

  datatype HexError =
    | EmptyString
    | MissingPrefix
    | EmptyNumber
    | LeadingZero
    | Syntax
    | OddLength
    | Uint64Range
    | Big256Range

  datatype Result<+T> = Ok(value: T) | Err(error: HexError)

  const TWO_64: nat := 0x1_0000_0000_0000_0000

  // ---------- Digits ----------

  const DIGITS: string := "0123456789abcdef"

  function Digit(n: nat): char
    requires n < 16
  {
    DIGITS[n]
  }

  /** The value of a hex digit of either case, None for other characters. */
  function Nibble(c: char): Option<nat> {
    if '0' <= c <= '9' then Some(c as nat - '0' as nat)
    else if 'a' <= c <= 'f' then Some(c as nat - 'a' as nat + 10)
    else if 'A' <= c <= 'F' then Some(c as nat - 'A' as nat + 10)
    else None
  }

  function Lower(c: char): char {
    if 'A' <= c <= 'Z' then (c as int + 32) as char else c
  }

  function LowerAll(s: string): string {
    seq(|s|, i requires 0 <= i < |s| => Lower(s[i]))
  }

  lemma {:induction false} NibbleOfDigit(n: nat)
    requires n < 16
    ensures Nibble(Digit(n)) == Some(n) && Lower(Digit(n)) == Digit(n)
  {
  }

  lemma {:induction false} DigitOfNibble(c: char)
    ensures Nibble(c).Some? ==> Nibble(c).value < 16 && Lower(c) == Digit(Nibble(c).value)
    ensures Nibble(Lower(c)) == Nibble(c)
  {
  }

  // ---------- Numbers ----------

  /** The digits of `n` without leading zeros; zero is "0". */
  function Digits(n: nat): (s: string)
    ensures |s| > 0
  {
    if n < 16 then [Digit(n)] else Digits(n / 16) + [Digit(n % 16)]
  }

  /** The number the digits of `s` denote, None if one is not a hex digit. */
  function Value(s: string): Option<nat> {
    if s == "" then Some(0)
    else
      var high, low := Value(s[..|s| - 1]), Nibble(s[|s| - 1]);
      if high.Some? && low.Some? then Some(16 * high.value + low.value) else None
  }

  lemma {:induction false} ValueSnoc(s: string, c: char)
    ensures Value(s + [c])
         == if Value(s).Some? && Nibble(c).Some? then Some(16 * Value(s).value + Nibble(c).value) else None
  {
    assert (s + [c])[..|s|] == s;
  }

  lemma {:induction false} ValueOfDigits(n: nat)
    ensures Value(Digits(n)) == Some(n)
  {
    if n < 16 {
      ValueSnoc("", Digit(n));
      assert "" + [Digit(n)] == [Digit(n)];
    } else {
      ValueOfDigits(n / 16);
      ValueSnoc(Digits(n / 16), Digit(n % 16));
      NibbleOfDigit(n % 16);
    }
  }

  /** No leading zero, unless the number is zero. */
  predicate Canonical(s: string) {
    s != "" && (|s| > 1 ==> s[0] != '0')
  }

  lemma {:induction false} DigitsCanonical(n: nat)
    ensures Canonical(Digits(n))
    ensures n > 0 ==> Digits(n)[0] != '0'
    ensures LowerAll(Digits(n)) == Digits(n)
  {
    if n >= 16 {
      DigitsCanonical(n / 16);
      NibbleOfDigit(n % 16);
      forall i | 0 <= i < |Digits(n)| ensures Lower(Digits(n)[i]) == Digits(n)[i] {
        if i < |Digits(n / 16)| {
          assert LowerAll(Digits(n / 16))[i] == Digits(n / 16)[i];
        }
      }
    } else {
      NibbleOfDigit(n);
    }
  }

  /** A text without leading zeros is, apart from case, the digits of its value. */
  lemma {:induction false} CanonicalIsDigits(s: string)
    requires Canonical(s) && Value(s).Some?
    ensures LowerAll(s) == Digits(Value(s).value)
    ensures s[0] != '0' ==> Value(s).value > 0
  {
    var init, c := s[..|s| - 1], s[|s| - 1];
    DigitOfNibble(c);
    LowerSnoc(init, c);
    assert s == init + [c];
    if init == "" {
      assert Value("") == Some(0);
    } else {
      assert init[0] == s[0] && Canonical(init);
      CanonicalIsDigits(init);
      DigitsSnoc(Value(init).value, Nibble(c).value);
    }
  }

  lemma {:induction false} LowerSnoc(s: string, c: char)
    ensures LowerAll(s + [c]) == LowerAll(s) + [Lower(c)]
  {
  }

  lemma {:induction false} DigitsSnoc(high: nat, low: nat)
    requires high > 0 && low < 16
    ensures Digits(16 * high + low) == Digits(high) + [Digit(low)]
  {
    assert (16 * high + low) / 16 == high && (16 * high + low) % 16 == low;
  }

  lemma {:induction false} ValueIgnoresCase(s: string)
    ensures Value(LowerAll(s)) == Value(s)
  {
    if s != "" {
      var init, c := s[..|s| - 1], s[|s| - 1];
      ValueIgnoresCase(init);
      DigitOfNibble(c);
      assert LowerAll(s) == LowerAll(init) + [Lower(c)];
      ValueSnoc(LowerAll(init), Lower(c));
    }
  }

  function Pow16(k: nat): nat {
    if k == 0 then 1 else 16 * Pow16(k - 1)
  }

  /** The number of digits bounds the value from both sides. */
  lemma {:induction false} DigitsLength(n: nat, k: nat)
    requires k > 0
    ensures |Digits(n)| <= k <==> n < Pow16(k)
  {
    if n >= 16 && k > 1 {
      DigitsLength(n / 16, k - 1);
      assert n / 16 < Pow16(k - 1) <==> n < 16 * Pow16(k - 1);
    } else if n >= 16 {
      assert Pow16(1) == 16;
    } else {
      Pow16AtLeast(k);
    }
  }

  lemma {:induction false} Pow16AtLeast(k: nat)
    requires k > 0
    ensures Pow16(k) >= 16
  {
    if k > 1 {
      Pow16AtLeast(k - 1);
    }
  }

  // ---------- Quantities ----------

  predicate HasPrefix(s: string) {
    |s| >= 2 && s[0] == '0' && (s[1] == 'x' || s[1] == 'X')
  }

  function CheckNumber(s: string): Result<string> {
    if |s| == 0 then Err(EmptyString)
    else if !HasPrefix(s) then Err(MissingPrefix)
    else if |s| == 2 then Err(EmptyNumber)
    else if |s| > 3 && s[2] == '0' then Err(LeadingZero)
    else Ok(s[2..])
  }

  function EncodeBig(n: int): string {
    if n >= 0 then "0x" + Digits(n) else "-0x" + Digits(-n)
  }

  function DecodeBig(s: string): Result<nat> {
    var raw := CheckNumber(s);
    if raw.Err? then Err(raw.error)
    else if |raw.value| > 64 then Err(Big256Range)
    else if Value(raw.value).None? then Err(Syntax)
    else Ok(Value(raw.value).value)
  }

  function EncodeUint64(n: nat): string {
    "0x" + Digits(n)
  }

  /** Reads digits from the left; whichever comes first, a bad digit or an
      overflow, is the error. */
  function ParseUint(s: string, acc: nat): Result<nat> {
    if s == "" then Ok(acc)
    else if Nibble(s[0]).None? then Err(Syntax)
    else if 16 * acc + Nibble(s[0]).value >= TWO_64 then Err(Uint64Range)
    else ParseUint(s[1..], 16 * acc + Nibble(s[0]).value)
  }

  function DecodeUint64(s: string): Result<nat> {
    var raw := CheckNumber(s);
    if raw.Err? then Err(raw.error) else ParseUint(raw.value, 0)
  }

  /** What CheckNumber lets through is the prefix and a canonical text. */
  lemma {:induction false} CheckNumberCanonical(s: string)
    ensures CheckNumber(s).Ok? <==> HasPrefix(s) && Canonical(s[2..])
    ensures CheckNumber(s).Ok? ==> CheckNumber(s).value == s[2..]
  {
  }

  lemma {:induction false} LowerPrefix(s: string)
    requires HasPrefix(s)
    ensures LowerAll(s) == "0x" + LowerAll(s[2..])
  {
  }

  lemma {:induction false} PrefixOfLower(s: string, raw: string)
    requires LowerAll(s) == "0x" + raw && LowerAll(raw) == raw
    ensures HasPrefix(s) && LowerAll(s[2..]) == raw
  {
    assert |LowerAll(s)| == |s|;
    assert Lower(s[0]) == LowerAll(s)[0] == '0' && Lower(s[1]) == LowerAll(s)[1] == 'x';
    assert LowerAll(s[2..]) == LowerAll(s)[2..] == raw;
  }

  lemma {:induction false} LowerKeepsZero(s: string)
    ensures Canonical(LowerAll(s)) <==> Canonical(s)
  {
    if |s| > 1 {
      assert LowerAll(s)[0] == Lower(s[0]);
    }
  }

  /** A quantity text is accepted, with `n` as its number, exactly when apart from
      letter case it is the encoding of `n`: one canonical text per number. */
  lemma {:induction false} QuantityIff(s: string, n: nat)
    ensures HasPrefix(s) && Canonical(s[2..]) && Value(s[2..]) == Some(n)
       <==> LowerAll(s) == "0x" + Digits(n)
  {
    if HasPrefix(s) && Canonical(s[2..]) && Value(s[2..]) == Some(n) {
      CanonicalIsDigits(s[2..]);
      LowerPrefix(s);
    }
    if LowerAll(s) == "0x" + Digits(n) {
      DigitsCanonical(n);
      PrefixOfLower(s, Digits(n));
      LowerKeepsZero(s[2..]);
      ValueIgnoresCase(s[2..]);
      ValueOfDigits(n);
    }
  }

  lemma {:induction false} LowerLength(s: string)
    ensures |LowerAll(s)| == |s|
  {
  }

  /** DecodeBig accepts exactly the encodings of the 256-bit numbers, in either case. */
  lemma {:induction false} DecodeBigIff(s: string, n: nat)
    ensures DecodeBig(s) == Ok(n) <==> n < Pow16(64) && LowerAll(s) == EncodeBig(n)
  {
    QuantityIff(s, n);
    CheckNumberCanonical(s);
    DigitsLength(n, 64);
    LowerLength(s);
  }

  lemma {:induction false} ParseUintValue(s: string, done: string)
    requires Value(done).Some? && Value(done).value < TWO_64
    ensures var v := Value(done + s); var r := ParseUint(s, Value(done).value);
            (r.Ok? <==> v.Some? && v.value < TWO_64) && (r.Ok? ==> r.value == v.value)
  {
    if s == "" {
      assert done + s == done;
    } else {
      ValueSnoc(done, s[0]);
      MoveOne(done, s);
      if Nibble(s[0]).None? || 16 * Value(done).value + Nibble(s[0]).value >= TWO_64 {
        ValueGrows(done + [s[0]], s[1..]);
      } else {
        ParseUintValue(s[1..], done + [s[0]]);
      }
    }
  }

  lemma {:induction false} MoveOne(done: string, s: string)
    requires s != ""
    ensures done + s == done + [s[0]] + s[1..]
  {
  }

  /** More digits keep a bad text bad and a large number large. */
  lemma {:induction false} ValueGrows(s: string, more: string)
    ensures Value(s).None? ==> Value(s + more).None?
    ensures Value(s).Some? && Value(s + more).Some? ==> Value(s + more).value >= Value(s).value
  {
    if more == "" {
      assert s + more == s;
    } else {
      assert (s + more)[..|s + more| - 1] == s + more[..|more| - 1];
      ValueGrows(s, more[..|more| - 1]);
    }
  }

  /** DecodeUint64 accepts exactly the encodings of the 64-bit numbers, in either case. */
  lemma {:induction false} DecodeUint64Iff(s: string, n: nat)
    ensures DecodeUint64(s) == Ok(n) <==> n < TWO_64 && LowerAll(s) == EncodeUint64(n)
  {
    QuantityIff(s, n);
    CheckNumberCanonical(s);
    if CheckNumber(s).Ok? {
      ParseUintValue(s[2..], "");
      assert "" + s[2..] == s[2..];
    }
  }

  /** Round trips, for exactly the numbers in range. */
  lemma {:induction false} BigRoundTrip(n: int)
    ensures DecodeBig(EncodeBig(n)) == (if 0 <= n < Pow16(64) then Ok(n)
                                        else if n < 0 then Err(MissingPrefix)
                                        else Err(Big256Range))
  {
    if n >= 0 {
      DigitsCanonical(n);
      LowerEncoding(Digits(n));
      DecodeBigIff(EncodeBig(n), n);
      DigitsLength(n, 64);
      assert EncodeBig(n)[2..] == Digits(n);
      CheckNumberCanonical(EncodeBig(n));
    }
  }

  lemma {:induction false} LowerEncoding(raw: string)
    requires LowerAll(raw) == raw
    ensures LowerAll("0x" + raw) == "0x" + raw
  {
    forall i | 0 <= i < |raw| ensures Lower(raw[i]) == raw[i] {
      assert LowerAll(raw)[i] == raw[i];
    }
  }

  lemma {:induction false} Uint64RoundTrip(n: nat)
    requires n < TWO_64
    ensures DecodeUint64(EncodeUint64(n)) == Ok(n)
  {
    DigitsCanonical(n);
    LowerEncoding(Digits(n));
    DecodeUint64Iff(EncodeUint64(n), n);
  }

  /** The digits of a number in base 16: '0' to '9' are characters 48 to 57, 'a' to
      'f' are 97 to 102. */
  lemma {:induction false} DigitsAre(n: nat)
    ensures n < 10 ==> Digits(n) == [(48 + n) as char]
    ensures 10 <= n < 16 ==> Digits(n) == [(87 + n) as char]
    ensures n >= 16 ==> Digits(n) == Digits(n / 16) + Digits(n % 16)
  {
  }

  /** Both cases of a text, its prefix included, are read. */
  lemma {:induction false} BothCases(n: nat, lower: string, upper: string)
    requires n == 57005 && lower == "0xdead" && upper == "0XDEAD"
    ensures EncodeBig(n) == lower && EncodeUint64(n) == lower
    ensures DecodeBig(lower) == DecodeBig(upper) == DecodeUint64(lower) == DecodeUint64(upper) == Ok(n)
  {
    DigitsAre(n);
    DigitsAre(n / 16);
    DigitsAre(n / 256);
    assert EncodeBig(n) == lower;
    assert LowerAll(upper) == lower && LowerAll(lower) == lower;
    DigitsLength(n, 64);
    DecodeBigIff(lower, n);
    DecodeBigIff(upper, n);
    DecodeUint64Iff(lower, n);
    DecodeUint64Iff(upper, n);
  }

  // ---------- What is wrong with a text ----------

  /** The first four errors of a quantity text, in this order. */
  lemma {:induction false} QuantityErrors(s: string)
    ensures DecodeBig(s) == Err(EmptyString) <==> s == ""
    ensures DecodeBig(s) == Err(MissingPrefix) <==> s != "" && !(|s| >= 2 && s[0] == '0' && s[1] in "xX")
    ensures DecodeBig(s) == Err(EmptyNumber) <==> |s| == 2 && s[0] == '0' && s[1] in "xX"
    ensures DecodeBig(s) == Err(LeadingZero) <==> |s| > 3 && s[0] == '0' && s[1] in "xX" && s[2] == '0'
    ensures forall e :: e in {EmptyString, MissingPrefix, EmptyNumber, LeadingZero} ==>
                          (DecodeUint64(s) == Err(e) <==> DecodeBig(s) == Err(e))
  {
    if CheckNumber(s).Ok? {
      ParseUintErrors(s[2..], "");
      assert "" + s[2..] == s[2..];
    }
  }

  /** Behind them, more than 64 digits are too many before any of them is looked at;
      of a 64-bit number whichever comes first, the overflow or the bad digit. */
  lemma {:induction false} DigitErrors(s: string)
    requires CheckNumber(s).Ok?
    ensures DecodeBig(s) == Err(Big256Range) <==> |s| > 66
    ensures DecodeBig(s) == Err(Syntax) <==> |s| <= 66 && Value(s[2..]).None?
    ensures DecodeUint64(s) == Err(Uint64Range) <==> exists k :: 2 <= k <= |s| && Overflows(s[2..k])
    ensures DecodeUint64(s) == Err(Syntax) <==> Value(s[2..]).None? && !exists k :: 2 <= k <= |s| && Overflows(s[2..k])
  {
    ParseUintErrors(s[2..], "");
    assert "" + s[2..] == s[2..];
    OverflowsBehind(s);
  }

  lemma {:induction false} OverflowsBehind(s: string)
    requires |s| >= 2
    ensures OverflowsWithin(s[2..], "") <==> exists k :: 2 <= k <= |s| && Overflows(s[2..k])
  {
    if k :| 0 <= k <= |s[2..]| && Overflows("" + s[2..][..k]) {
      assert "" + s[2..][..k] == s[2..k + 2];
    }
    if k :| 2 <= k <= |s| && Overflows(s[2..k]) {
      assert "" + s[2..][..k - 2] == s[2..k];
    }
  }

  predicate Overflows(s: string) {
    Value(s).Some? && Value(s).value >= TWO_64
  }

  /** Some beginning of `s` behind `done` overflows. */
  ghost predicate OverflowsWithin(s: string, done: string) {
    exists k :: 0 <= k <= |s| && Overflows(done + s[..k])
  }

  lemma {:induction false} ParseUintErrors(s: string, done: string)
    requires Value(done).Some? && Value(done).value < TWO_64
    ensures var r := ParseUint(s, Value(done).value);
            (r.Err? ==> r.error in {Syntax, Uint64Range})
            && (r == Err(Uint64Range) <==> OverflowsWithin(s, done))
            && (r == Err(Syntax) ==> Value(done + s).None?)
            && (r.Ok? ==> Value(done + s).Some?)
  {
    if s == "" {
      assert done + s[..0] == done && done + s == done;
    } else {
      ValueSnoc(done, s[0]);
      MoveOne(done, s);
      OverflowsNext(s, done);
      if Nibble(s[0]).None? {
        ValueGrows(done + [s[0]], s[1..]);
        NoDigitNoOverflow(s[1..], done + [s[0]]);
      } else if 16 * Value(done).value + Nibble(s[0]).value >= TWO_64 {
        OverflowsAtOnce(s[1..], done + [s[0]]);
      } else {
        ParseUintErrors(s[1..], done + [s[0]]);
      }
    }
  }

  lemma {:induction false} OverflowsNext(s: string, done: string)
    requires s != "" && !Overflows(done)
    ensures OverflowsWithin(s, done) <==> OverflowsWithin(s[1..], done + [s[0]])
  {
    if k :| 0 <= k <= |s| && Overflows(done + s[..k]) {
      SomethingRead(s, done, k);
      OneDigitLess(s, done, k - 1);
      assert Overflows(done + [s[0]] + s[1..][..k - 1]);
    }
    if k :| 0 <= k <= |s[1..]| && Overflows(done + [s[0]] + s[1..][..k]) {
      OneDigitLess(s, done, k);
      assert Overflows(done + s[..k + 1]);
    }
  }

  lemma {:induction false} SomethingRead(s: string, done: string, k: nat)
    requires k <= |s| && !Overflows(done)
    ensures Overflows(done + s[..k]) ==> k > 0
  {
    if k == 0 {
      assert done + s[..k] == done;
    }
  }

  lemma {:induction false} OneDigitLess(s: string, done: string, k: nat)
    requires k < |s|
    ensures done + s[..k + 1] == done + [s[0]] + s[1..][..k]
  {
  }

  lemma {:induction false} NoDigitNoOverflow(s: string, done: string)
    requires Value(done).None?
    ensures !OverflowsWithin(s, done)
  {
    forall k | 0 <= k <= |s| ensures !Overflows(done + s[..k]) {
      ValueGrows(done, s[..k]);
    }
  }

  lemma {:induction false} OverflowsAtOnce(s: string, done: string)
    requires Overflows(done)
    ensures OverflowsWithin(s, done)
  {
    assert done + s[..0] == done;
  }

  // ---------- Byte strings ----------

  type Byte = b: nat | b < 256

  /** A byte as two lower-case digits. */
  function LowerDigits(b: Byte): string {
    [Digit(b / 16), Digit(b % 16)]
  }

  function HexOfBytes(bs: seq<Byte>): string {
    if bs == [] then "" else LowerDigits(bs[0]) + HexOfBytes(bs[1..])
  }

  /** The bytes of the leading well-formed digit pairs, and what is left. */
  function BytesOfHex(s: string): (seq<Byte>, string) {
    if |s| < 2 || Nibble(s[0]).None? || Nibble(s[1]).None? then ([], s)
    else
      var b: Byte := 16 * Nibble(s[0]).value + Nibble(s[1]).value;
      var (bs, rest) := BytesOfHex(s[2..]);
      ([b] + bs, rest)
  }

  function EncodeBytes(bs: seq<Byte>): string {
    "0x" + HexOfBytes(bs)
  }

  function DecodeBytes(s: string): Result<seq<Byte>> {
    if |s| == 0 then Err(EmptyString)
    else if !HasPrefix(s) then Err(MissingPrefix)
    else
      var (bs, rest) := BytesOfHex(s[2..]);
      if rest == "" then Ok(bs)
      else if |rest| == 1 && Nibble(rest[0]).Some? then Err(OddLength)
      else Err(Syntax)
  }

  lemma {:induction false} BytesOfHexOfBytes(bs: seq<Byte>)
    ensures BytesOfHex(HexOfBytes(bs)) == (bs, "")
  {
    if bs != [] {
      BytesOfHexOfBytes(bs[1..]);
      BytesOfHexPair(bs[0], HexOfBytes(bs[1..]));
      assert [bs[0]] + bs[1..] == bs;
    }
  }

  lemma {:induction false} BytesOfHexPair(b: Byte, s: string)
    ensures BytesOfHex(LowerDigits(b) + s) == ([b] + BytesOfHex(s).0, BytesOfHex(s).1)
  {
    var t := LowerDigits(b) + s;
    NibbleOfDigit(b / 16);
    NibbleOfDigit(b % 16);
    assert t[0] == Digit(b / 16) && t[1] == Digit(b % 16) && t[2..] == s;
  }

  /** The digit pairs of a text are all read, as the bytes `bs`, exactly when the text
      is, apart from case, the pairs of `bs`. */
  lemma {:induction false} BytesOfHexIff(s: string, bs: seq<Byte>)
    ensures BytesOfHex(s) == (bs, "") <==> LowerAll(s) == HexOfBytes(bs)
    decreases |s|
  {
    if bs == [] {
      NoBytes(s);
    } else if |s| < 2 || Nibble(s[0]).None? || Nibble(s[1]).None? {
      if LowerAll(s) == HexOfBytes(bs) {
        LowerPair(s, bs);
      }
    } else {
      BytesOfHexIff(s[2..], bs[1..]);
      PairStep(s, bs);
    }
  }

  lemma {:induction false} PairStep(s: string, bs: seq<Byte>)
    requires |s| >= 2 && Nibble(s[0]).Some? && Nibble(s[1]).Some? && bs != []
    requires BytesOfHex(s[2..]) == (bs[1..], "") <==> LowerAll(s[2..]) == HexOfBytes(bs[1..])
    ensures BytesOfHex(s) == (bs, "") <==> LowerAll(s) == HexOfBytes(bs)
  {
    var b: Byte := 16 * Nibble(s[0]).value + Nibble(s[1]).value;
    ReadPair(s, bs);
    PairDigits(s[0], s[1], b);
    LowerFirstPair(s, b);
    PairUnique(b, bs[0], LowerAll(s[2..]), HexOfBytes(bs[1..]));
  }

  lemma {:induction false} NoBytes(s: string)
    ensures BytesOfHex(s) == ([], "") <==> s == ""
    ensures LowerAll(s) == HexOfBytes([]) <==> s == ""
  {
    assert |LowerAll(s)| == |s|;
  }

  lemma {:induction false} ReadPair(s: string, bs: seq<Byte>)
    requires |s| >= 2 && Nibble(s[0]).Some? && Nibble(s[1]).Some? && bs != []
    ensures BytesOfHex(s) == (bs, "")
       <==> bs[0] == 16 * Nibble(s[0]).value + Nibble(s[1]).value && BytesOfHex(s[2..]) == (bs[1..], "")
  {
    var b: Byte := 16 * Nibble(s[0]).value + Nibble(s[1]).value;
    var rest := BytesOfHex(s[2..]);
    assert BytesOfHex(s) == ([b] + rest.0, rest.1);
    assert ([b] + rest.0)[0] == b && ([b] + rest.0)[1..] == rest.0;
    assert bs == [bs[0]] + bs[1..];
  }

  lemma {:induction false} LowerFirstPair(s: string, b: Byte)
    requires |s| >= 2 && LowerDigits(b) == [Lower(s[0]), Lower(s[1])]
    ensures LowerAll(s) == LowerDigits(b) + LowerAll(s[2..])
  {
    var two := LowerDigits(b);
    assert LowerAll(s) == two + LowerAll(s[2..]);
  }

  lemma {:induction false} PairDigits(c: char, d: char, b: Byte)
    requires Nibble(c).Some? && Nibble(d).Some? && b == 16 * Nibble(c).value + Nibble(d).value
    ensures LowerDigits(b) == [Lower(c), Lower(d)]
  {
    DigitOfNibble(c);
    DigitOfNibble(d);
    assert b / 16 == Nibble(c).value && b % 16 == Nibble(d).value;
  }

  lemma {:induction false} PairUnique(b: Byte, c: Byte, s: string, t: string)
    ensures LowerDigits(b) + s == LowerDigits(c) + t <==> b == c && s == t
  {
    var x, y := LowerDigits(b) + s, LowerDigits(c) + t;
    NibbleOfDigit(b / 16);
    NibbleOfDigit(b % 16);
    NibbleOfDigit(c / 16);
    NibbleOfDigit(c % 16);
    assert x[0] == Digit(b / 16) && x[1] == Digit(b % 16) && x[2..] == s;
    assert y[0] == Digit(c / 16) && y[1] == Digit(c % 16) && y[2..] == t;
  }

  lemma {:induction false} LowerPair(s: string, bs: seq<Byte>)
    requires bs != [] && LowerAll(s) == HexOfBytes(bs)
    ensures |s| >= 2 && Nibble(s[0]).Some? && Nibble(s[1]).Some?
  {
    assert |LowerAll(s)| == |s|;
    assert LowerAll(s)[0] == Digit(bs[0] / 16) && LowerAll(s)[1] == Digit(bs[0] % 16);
    NibbleOfDigit(bs[0] / 16);
    NibbleOfDigit(bs[0] % 16);
    DigitOfNibble(s[0]);
    DigitOfNibble(s[1]);
  }

  /** A byte string text is accepted, as `bs`, exactly when apart from letter case it
      is the encoding of `bs`. */
  lemma {:induction false} DecodeBytesIff(s: string, bs: seq<Byte>)
    ensures DecodeBytes(s) == Ok(bs) <==> LowerAll(s) == EncodeBytes(bs)
  {
    if HasPrefix(s) {
      LowerPrefix(s);
      BytesOfHexIff(s[2..], bs);
      assert EncodeBytes(bs)[2..] == HexOfBytes(bs);
      assert LowerAll(s)[2..] == LowerAll(s[2..]);
    } else if LowerAll(s) == EncodeBytes(bs) {
      BytesRoundTrip(bs);
      LowerHasPrefix(s, HexOfBytes(bs));
    }
  }

  lemma {:induction false} LowerHasPrefix(s: string, raw: string)
    requires LowerAll(s) == "0x" + raw
    ensures HasPrefix(s)
  {
    assert |LowerAll(s)| == |s|;
    assert Lower(s[0]) == LowerAll(s)[0] == '0' && Lower(s[1]) == LowerAll(s)[1] == 'x';
  }

  lemma {:induction false} ValueAll(s: string)
    ensures Value(s).Some? <==> forall c :: c in s ==> Nibble(c).Some?
  {
    if s != "" {
      ValueAll(s[..|s| - 1]);
      assert forall c :: c in s <==> c in s[..|s| - 1] || c == s[|s| - 1];
    }
  }

  lemma {:induction false} BytesOfHexRest(s: string)
    ensures var rest := BytesOfHex(s).1;
            ((forall c :: c in s ==> Nibble(c).Some?) <==> rest == "" || (|rest| == 1 && Nibble(rest[0]).Some?))
            && (|rest| % 2 == |s| % 2)
  {
    if |s| >= 2 && Nibble(s[0]).Some? && Nibble(s[1]).Some? {
      BytesOfHexRest(s[2..]);
      assert s == [s[0], s[1]] + s[2..];
    } else if |s| >= 2 {
      assert s[0] in s && s[1] in s;
    }
  }

  /** What is wrong with a byte string text, in this order: nothing there, no prefix, a
      character that is no digit, an odd number of digits. */
  lemma {:induction false} BytesErrors(s: string)
    ensures DecodeBytes(s) == Err(EmptyString) <==> s == ""
    ensures DecodeBytes(s) == Err(MissingPrefix) <==> s != "" && !(|s| >= 2 && s[0] == '0' && s[1] in "xX")
    ensures DecodeBytes(s) == Err(Syntax) <==> |s| >= 2 && s[0] == '0' && s[1] in "xX" && Value(s[2..]).None?
    ensures DecodeBytes(s) == Err(OddLength)
       <==> |s| % 2 == 1 && |s| >= 2 && s[0] == '0' && s[1] in "xX" && Value(s[2..]).Some?
  {
    if |s| >= 2 {
      ValueAll(s[2..]);
      BytesOfHexRest(s[2..]);
    }
  }

  lemma {:induction false} BytesRoundTrip(bs: seq<Byte>)
    ensures DecodeBytes(EncodeBytes(bs)) == Ok(bs)
  {
    assert EncodeBytes(bs)[2..] == HexOfBytes(bs);
    BytesOfHexOfBytes(bs);
  }
}
