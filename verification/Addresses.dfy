/** Address texts: parsing, and the mixed-case checksum form of EIP-55. */
module Addresses {
  import opened Types
  import opened Arithmetic
  import opened Hex

  /** Which of the 40 digits of an address's checksum form are upper case; EIP-55
      takes this from the Keccak hash of the address. */
  type Casing = (Address, nat) -> bool

  function Upper(c: char): char {
    if 'a' <= c <= 'f' then (c as int - 32) as char else c
  }

  /** The last `w` hex digits of `n`. */
  function FixedDigits(n: nat, w: nat): (s: string)
    ensures |s| == w
  {
    if w == 0 then "" else FixedDigits(n / 16, w - 1) + [Digit(n % 16)]
  }

  function Cased(s: string, a: Address, upper: Casing): string {
    seq(|s|, i requires 0 <= i < |s| => if upper(a, i) then Upper(s[i]) else s[i])
  }

  /** The checksum form of an address. */
  function Text(a: Address, upper: Casing): string {
    "0x" + Cased(FixedDigits(a, 40), a, upper)
  }

  function StripPrefix(s: string): string {
    if HasPrefix(s) then s[2..] else s
  }

  predicate IsHexAddress(s: string) {
    |StripPrefix(s)| == 40 && Value(StripPrefix(s)).Some?
  }

  function NumberOf(bs: seq<Byte>): nat {
    if bs == [] then 0 else 256 * NumberOf(bs[..|bs| - 1]) + bs[|bs| - 1]
  }

  /** Reads any text: an odd one is padded, bad digits end it, and only the last
      20 bytes count. */
  function HexToAddress(s: string): Address {
    var raw := StripPrefix(s);
    var (bs, _) := BytesOfHex(if |raw| % 2 == 1 then "0" + raw else raw);
    NumberOf(bs) % 0x1_00000000_00000000_00000000_00000000_00000000
  }

  function ChecksumAddress(s: string, upper: Casing): Option<string> {
    if IsHexAddress(s) then Some(Text(HexToAddress(s), upper)) else None
  }

  // ---------- Reading back ----------

  lemma {:induction false} CasedValue(s: string, a: Address, upper: Casing)
    ensures Value(Cased(s, a, upper)) == Value(s)
  {
    if s != "" {
      var init, c := s[..|s| - 1], s[|s| - 1];
      var c' := if upper(a, |s| - 1) then Upper(c) else c;
      CasedValue(init, a, upper);
      assert Cased(s, a, upper) == Cased(init, a, upper) + [c'];
      assert Nibble(c') == Nibble(c);
      ValueSnoc(Cased(init, a, upper), c');
    }
  }

  lemma {:induction false} FixedDigitsValue(n: nat, w: nat)
    ensures Pow16(w) > 0
    ensures Value(FixedDigits(n, w)) == Some(n % Pow16(w))
  {
    if w > 0 {
      FixedDigitsValue(n / 16, w - 1);
      OneMoreDigit(FixedDigits(n / 16, w - 1), n, Pow16(w - 1));
      FixedDigitsLast(n, w);
    }
  }

  lemma {:induction false} FixedDigitsLast(n: nat, w: nat)
    requires w > 0
    ensures FixedDigits(n, w) == FixedDigits(n / 16, w - 1) + [Digit(n % 16)] && Pow16(w) == 16 * Pow16(w - 1)
  {
  }

  lemma {:induction false} OneMoreDigit(s: string, n: nat, m: nat)
    requires m > 0 && Value(s) == Some(n / 16 % m)
    ensures Value(s + [Digit(n % 16)]) == Some(n % (16 * m))
  {
    NibbleOfDigit(n % 16);
    ValueSnoc(s, Digit(n % 16));
    ModSplit(n, m);
  }

  lemma {:induction false} ModSplit(n: nat, m: nat)
    requires m > 0
    ensures n % (16 * m) == 16 * (n / 16 % m) + n % 16
  {
    var q, r := n / 16 / m, n / 16 % m;
    assert n / 16 == q * m + r;
    assert n == 16 * (q * m + r) + n % 16;
    assert n == q * (16 * m) + (16 * r + n % 16);
    DivModUnique(n, 16 * m, q, 16 * r + n % 16);
  }

  lemma {:induction false} Pow16Add(a: nat, b: nat)
    ensures Pow16(a + b) == Pow16(a) * Pow16(b)
  {
    if a > 0 {
      Pow16Add(a - 1, b);
      assert Pow16(a) * Pow16(b) == 16 * (Pow16(a - 1) * Pow16(b));
    }
  }

  lemma {:induction false} Pow16At40()
    ensures Pow16(40) == 0x1_00000000_00000000_00000000_00000000_00000000
  {
    assert Pow16(5) == 0x10_0000;
    Pow16Add(5, 5);
    Pow16Add(10, 10);
    Pow16Add(20, 20);
  }

  /** One more pair of digits is one more byte. */
  lemma {:induction false} BytesOfHexSnoc(s: string, c: char, d: char)
    requires BytesOfHex(s).1 == "" && Nibble(c).Some? && Nibble(d).Some?
    ensures BytesOfHex(s + [c, d]) == (BytesOfHex(s).0 + [16 * Nibble(c).value + Nibble(d).value], "")
  {
    if s == "" {
      assert s + [c, d] == [c, d];
      assert [c, d][2..] == "" && BytesOfHex("") == ([], "");
      var last: Byte := 16 * Nibble(c).value + Nibble(d).value;
      assert BytesOfHex([c, d]) == ([last] + [], "");
      assert BytesOfHex(s).0 + [last] == [last] == [last] + [];
    } else {
      var t := s + [c, d];
      assert t[0] == s[0] && t[1] == s[1] && t[2..] == s[2..] + [c, d];
      BytesOfHexSnoc(s[2..], c, d);
      var b: Byte := 16 * Nibble(s[0]).value + Nibble(s[1]).value;
      var last: Byte := 16 * Nibble(c).value + Nibble(d).value;
      var bs := BytesOfHex(s[2..]).0;
      assert [b] + (bs + [last]) == ([b] + bs) + [last];
    }
  }

  /** Well-formed digits in pairs are read completely, to the same number. */
  lemma {:induction false} BytesOfDigits(s: string)
    requires |s| % 2 == 0 && Value(s).Some?
    ensures BytesOfHex(s).1 == "" && NumberOf(BytesOfHex(s).0) == Value(s).value
  {
    if s != "" {
      var n := |s|;
      var init, c, d := s[..n - 2], s[n - 2], s[n - 1];
      assert s[..n - 1][..n - 2] == init;
      assert Value(s[..n - 1]).Some? && Value(init).Some?;
      BytesOfDigits(init);
      assert s == init + [c, d];
      BytesOfHexSnoc(init, c, d);
      assert s[..n - 1] == init + [c];
      var bs := BytesOfHex(s).0;
      assert bs[..|bs| - 1] == BytesOfHex(init).0;
    }
  }

  lemma {:induction false} ValueBound(s: string)
    ensures Value(s).Some? ==> Value(s).value < Pow16(|s|)
  {
    if s != "" {
      ValueBound(s[..|s| - 1]);
    }
  }

  /** A valid address text denotes the number of its digits. */
  lemma {:induction false} HexToAddressValue(s: string)
    requires IsHexAddress(s)
    ensures HexToAddress(s) == Value(StripPrefix(s)).value
  {
    BytesOfDigits(StripPrefix(s));
    ValueBound(StripPrefix(s));
    Pow16At40();
  }

  lemma {:induction false} PadValue(s: string)
    ensures Value("0" + s) == Value(s)
  {
    if s == "" {
      ValueSnoc("", '0');
      assert "" + ['0'] == "0" + s;
    } else {
      var n := |s| - 1;
      PadValue(s[..n]);
      ValueSnoc("0" + s[..n], s[n]);
      ValueSnoc(s[..n], s[n]);
      assert s == s[..n] + [s[n]] && "0" + s == "0" + s[..n] + [s[n]];
    }
  }

  /** Any row of hex digits, with or without prefix, is read as an address: as the
      last 40 digits of its number. */
  lemma {:induction false} AnyDigitsRead(s: string)
    requires Value(StripPrefix(s)).Some?
    ensures HexToAddress(s) == Value(StripPrefix(s)).value % 0x1_00000000_00000000_00000000_00000000_00000000
  {
    var raw := StripPrefix(s);
    PadValue(raw);
    BytesOfDigits(if |raw| % 2 == 1 then "0" + raw else raw);
  }

  lemma {:induction false} TextValue(a: Address, upper: Casing)
    ensures |StripPrefix(Text(a, upper))| == 40
    ensures Value(StripPrefix(Text(a, upper))) == Some(a)
  {
    StripText(a, upper);
    CasedValue(FixedDigits(a, 40), a, upper);
    FixedDigitsValue(a, 40);
    Pow16At40();
    SmallMod(a, Pow16(40));
  }

  lemma {:induction false} StripText(a: Address, upper: Casing)
    ensures StripPrefix(Text(a, upper)) == Cased(FixedDigits(a, 40), a, upper)
  {
  }

  lemma {:induction false} SmallMod(n: nat, m: nat)
    requires n < m
    ensures n % m == n
  {
  }

  /** The checksum form is a valid address text and reads back as its address;
      so different addresses have different checksum forms. */
  lemma {:induction false} TextRoundTrip(a: Address, upper: Casing)
    ensures IsHexAddress(Text(a, upper)) && HexToAddress(Text(a, upper)) == a
  {
    TextValue(a, upper);
    HexToAddressValue(Text(a, upper));
  }

  /** The form of an address text: "0x" and the 40 digits of the address, in upper case
      exactly where the casing says so and the digit is a letter. */
  lemma {:induction false} TextForm(a: Address, upper: Casing, i: nat)
    requires i < 40
    ensures var t := Text(a, upper);
            |t| == 42 && t[..2] == "0x" && Value(t[2..]) == Some(a)
            && ('A' <= t[2 + i] <= 'F' <==> upper(a, i) && t[2 + i] > '9')
            && ('a' <= t[2 + i] <= 'f' <==> !upper(a, i) && t[2 + i] > '9')
  {
    TextValue(a, upper);
    StripText(a, upper);
    DigitsOnly(a, 40);
    assert FixedDigits(a, 40)[i] in FixedDigits(a, 40);
    assert Text(a, upper)[2..] == Cased(FixedDigits(a, 40), a, upper);
  }

  /** Checksumming a valid text keeps the address, and checksumming again changes
      nothing; two valid texts have the same checksum form exactly when they denote
      the same address. */
  lemma {:induction false} ChecksumLaws(s: string, t: string, upper: Casing)
    ensures ChecksumAddress(s, upper).Some? ==>
              var c := ChecksumAddress(s, upper).value;
              HexToAddress(c) == HexToAddress(s) && ChecksumAddress(c, upper) == Some(c)
    ensures ChecksumAddress(s, upper).Some? && ChecksumAddress(t, upper).Some? ==>
              (ChecksumAddress(s, upper) == ChecksumAddress(t, upper) <==> HexToAddress(s) == HexToAddress(t))
  {
    TextRoundTrip(HexToAddress(s), upper);
    TextRoundTrip(HexToAddress(t), upper);
  }

  /** The letter case of a text is not checked: it is accepted, and names the same
      account, whatever its case is. */
  lemma {:induction false} ChecksumIgnoresCase(s: string, upper: Casing)
    ensures IsHexAddress(s) <==> IsHexAddress(LowerAll(s))
    ensures ChecksumAddress(s, upper) == ChecksumAddress(LowerAll(s), upper)
  {
    StripLower(s);
    ValueIgnoresCase(StripPrefix(s));
    LowerLength(StripPrefix(s));
    if IsHexAddress(s) {
      HexToAddressValue(s);
      HexToAddressValue(LowerAll(s));
    }
  }

  function Opposite(upper: Casing): Casing {
    (a: Address, i: nat) => !upper(a, i)
  }

  /** In particular an address text whose letters are all in the wrong case is
      accepted as if it were the checksum form. */
  lemma {:induction false} WrongCaseAccepted(a: Address, upper: Casing)
    ensures ChecksumAddress(Text(a, Opposite(upper)), upper) == Some(Text(a, upper))
    ensures Text(a, Opposite(upper)) == Text(a, upper) <==> forall c :: c in FixedDigits(a, 40) ==> c <= '9'
  {
    TextRoundTrip(a, Opposite(upper));
    DigitsOnly(a, 40);
    WrongCaseDiffers(FixedDigits(a, 40), a, upper);
    StripText(a, upper);
    StripText(a, Opposite(upper));
  }

  lemma {:induction false} WrongCaseDiffers(s: string, a: Address, upper: Casing)
    requires forall c :: c in s ==> '0' <= c <= '9' || 'a' <= c <= 'f'
    ensures Cased(s, a, Opposite(upper)) == Cased(s, a, upper) <==> forall c :: c in s ==> c <= '9'
  {
    forall i | 0 <= i < |s|
      ensures Cased(s, a, Opposite(upper))[i] == Cased(s, a, upper)[i] <==> s[i] <= '9'
    {
      assert s[i] in s;
      assert Upper(s[i]) == s[i] <==> s[i] <= '9';
    }
    if forall c :: c in s ==> c <= '9' {
      forall i | 0 <= i < |s| ensures Cased(s, a, Opposite(upper))[i] == Cased(s, a, upper)[i] {
        assert s[i] in s;
      }
      assert Cased(s, a, Opposite(upper)) == Cased(s, a, upper);
    }
    if Cased(s, a, Opposite(upper)) == Cased(s, a, upper) {
      forall c | c in s ensures c <= '9' {
        var i :| 0 <= i < |s| && s[i] == c;
        assert Cased(s, a, Opposite(upper))[i] == Cased(s, a, upper)[i];
      }
    }
  }

  lemma {:induction false} DigitsOnly(n: nat, w: nat)
    ensures forall c :: c in FixedDigits(n, w) ==> '0' <= c <= '9' || 'a' <= c <= 'f'
  {
    if w > 0 {
      DigitsOnly(n / 16, w - 1);
      NibbleOfDigit(n % 16);
    }
  }

  lemma {:induction false} StripLower(s: string)
    ensures StripPrefix(LowerAll(s)) == LowerAll(StripPrefix(s))
  {
    if |s| >= 2 {
      assert LowerAll(s)[0] == Lower(s[0]) && LowerAll(s)[1] == Lower(s[1]);
    }
  }
}
