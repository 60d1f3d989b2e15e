/** The packed path of a Uniswap V3 trade: addresses in hex with a six-digit fee between each two. */
module PathEncoding {
  import opened Wrappers

  const FEE_SIZE: nat := 6
  const ADDRESS_SIZE: nat := 40
  /** ethers rejects numbers it cannot represent exactly. */
  const MAX_SAFE: int := 0x1f_ffff_ffff_ffff

  // ----- Strings -----

  function HexDigit(n: nat): char
    requires n < 16
  {
    "0123456789abcdef"[n]
  }

  /** The digits of a positive number; none for zero. */
  function HexDigits(n: nat): string {
    if n == 0 then "" else HexDigits(n / 16) + [HexDigit(n % 16)]
  }

  /** `ethers.utils.hexlify` on a number, without the leading 0x: whole bytes, at least one. */
  function Hexlify(n: nat): string {
    var digits := HexDigits(n);
    if digits == "" then "00" else if |digits| % 2 == 1 then "0" + digits else digits
  }

  function PadStart(s: string, size: nat): string
    decreases size - |s|
  {
    if size <= |s| then s else PadStart("0" + s, size)
  }

  function LowerChar(c: char): char {
    if 'A' <= c <= 'Z' then (c as int - 'A' as int + 'a' as int) as char else c
  }

  function ToLowerCase(s: string): string {
    seq(|s|, i requires 0 <= i < |s| => LowerChar(s[i]))
  }

  /** `s.slice(2)`: what follows the first two characters, nothing for shorter strings. */
  function Slice2(s: string): string {
    if |s| < 2 then "" else s[2..]
  }

  // ----- Encoding -----

  predicate IsSafeFee(fee: int) {
    0 <= fee < MAX_SAFE
  }

  predicate AreSafeFees(fees: seq<int>) {
    forall i :: 0 <= i < |fees| ==> IsSafeFee(fees[i])
  }

  function FeeField(fee: nat): string {
    PadStart(Hexlify(fee), FEE_SIZE)
  }

  /** The part of the encoding from address i on, before it is lower-cased. */
  function Tail(path: seq<string>, fees: seq<int>, i: nat): string
    requires |path| == |fees| + 1 && i <= |fees|
    requires AreSafeFees(fees)
    decreases |fees| - i
  {
    if i == |fees| then Slice2(path[i])
    else
      assert IsSafeFee(fees[i]);
      Slice2(path[i]) + FeeField(fees[i]) + Tail(path, fees, i + 1)
  }

  function Encoded(path: seq<string>, fees: seq<int>): string
    requires |path| == |fees| + 1
    requires AreSafeFees(fees)
  {
    ToLowerCase("0x" + Tail(path, fees, 0))
  }

  method EncodePath(path: seq<string>, fees: seq<int>) returns (r: Result<string>)
    ensures |path| != |fees| + 1 ==> r == Err(LengthMismatch)
    ensures |path| == |fees| + 1 && !AreSafeFees(fees) ==> r == Err(InvalidFee)
    ensures |path| == |fees| + 1 && AreSafeFees(fees) ==> r == Ok(Encoded(path, fees))
  {
    if |path| != |fees| + 1 {
      return Err(LengthMismatch);
    }
    hide Slice2, FeeField, ToLowerCase;
    var encoded := "0x";
    for i := 0 to |fees|
      invariant forall j :: 0 <= j < i ==> IsSafeFee(fees[j])
      invariant AreSafeFees(fees) ==> encoded + Tail(path, fees, i) == "0x" + Tail(path, fees, 0)
    {
      ghost var before := encoded;
      encoded := encoded + Slice2(path[i]);
      if !IsSafeFee(fees[i]) {
        return Err(InvalidFee);
      }
      encoded := encoded + FeeField(fees[i]);
      if AreSafeFees(fees) {
        Reassociate(before, Slice2(path[i]), FeeField(fees[i]), Tail(path, fees, i + 1));
      }
    }
    encoded := encoded + Slice2(path[|path| - 1]);
    return Ok(ToLowerCase(encoded));
  }

  lemma Reassociate(a: string, b: string, c: string, d: string)
    ensures a + b + c + d == a + (b + c + d)
  {
  }

  // ----- Decoding -----

  function HexValue(c: char): nat {
    if '0' <= c <= '9' then c as int - '0' as int
    else if 'a' <= c <= 'f' then c as int - 'a' as int + 10
    else if 'A' <= c <= 'F' then c as int - 'A' as int + 10
    else 0
  }

  function ParseHex(s: string): nat {
    if s == "" then 0 else ParseHex(s[..|s| - 1]) * 16 + HexValue(s[|s| - 1])
  }

  /** Reads addresses of 40 digits and fees of six in turn. */
  function DecodeTail(s: string): (seq<string>, seq<int>)
    decreases |s|
  {
    if |s| < ADDRESS_SIZE + FEE_SIZE then (["0x" + s], [])
    else
      var (path, fees) := DecodeTail(s[ADDRESS_SIZE + FEE_SIZE..]);
      (["0x" + s[..ADDRESS_SIZE]] + path, [ParseHex(s[ADDRESS_SIZE..ADDRESS_SIZE + FEE_SIZE])] + fees)
  }

  function Decode(encoded: string): (seq<string>, seq<int>) {
    DecodeTail(Slice2(encoded))
  }

  // ----- Hex fields -----

  lemma {:induction false} HexDigitsParse(n: nat)
    ensures ParseHex(HexDigits(n)) == n
    ensures ToLowerCase(HexDigits(n)) == HexDigits(n)
  {
    if n != 0 {
      HexDigitsParse(n / 16);
      DigitParses(n % 16);
      AppendDigit(HexDigits(n / 16), HexDigit(n % 16));
    }
  }

  lemma DigitParses(d: nat)
    requires d < 16
    ensures HexValue(HexDigit(d)) == d && LowerChar(HexDigit(d)) == HexDigit(d)
    ensures HexDigit(d) as int == d + if d < 10 then '0' as int else 'a' as int - 10
  {
  }

  lemma AppendDigit(s: string, c: char)
    requires LowerChar(c) == c && ToLowerCase(s) == s
    ensures ParseHex(s + [c]) == ParseHex(s) * 16 + HexValue(c)
    ensures ToLowerCase(s + [c]) == s + [c]
  {
  }

  function Pow16(k: nat): (p: nat)
    ensures 0 < p
  {
    if k == 0 then 1 else 16 * Pow16(k - 1)
  }

  /** A number has at most k hex digits exactly when it is below 16 to the k. */
  lemma {:induction false} HexDigitsLength(n: nat, k: nat)
    ensures |HexDigits(n)| <= k <==> n < Pow16(k)
  {
    if n != 0 && k != 0 {
      HexDigitsLength(n / 16, k - 1);
    }
  }

  lemma {:induction false} LeadingZero(s: string)
    ensures ParseHex("0" + s) == ParseHex(s)
  {
    if s != "" {
      assert ("0" + s)[..|s|] == "0" + s[..|s| - 1];
      LeadingZero(s[..|s| - 1]);
    } else {
      assert ("0" + s)[..0] == "";
    }
  }

  lemma {:induction false} PaddedField(s: string, size: nat)
    requires ToLowerCase(s) == s
    ensures |PadStart(s, size)| == if |s| <= size then size else |s|
    ensures ParseHex(PadStart(s, size)) == ParseHex(s)
    ensures ToLowerCase(PadStart(s, size)) == PadStart(s, size)
    decreases size - |s|
  {
    if |s| < size {
      var t := "0" + s;
      assert forall i :: 0 <= i < |s| ==> LowerChar(s[i]) == ToLowerCase(s)[i];
      assert forall i :: 0 <= i < |t| ==> LowerChar(t[i]) == t[i];
      PaddedField(t, size);
      LeadingZero(s);
    }
  }

  lemma {:induction false} LowerZero(s: string)
    requires ToLowerCase(s) == s
    ensures ToLowerCase("0" + s) == "0" + s
  {
  }

  lemma ParseZero()
    ensures ParseHex("00") == 0
  {
  }

  lemma HexlifyLength(n: nat)
    ensures |Hexlify(n)| <= FEE_SIZE <==> n < Pow16(FEE_SIZE)
  {
    HexDigitsLength(n, FEE_SIZE);
    HexDigitsLength(n, 0);
  }

  /** The number is written in whole bytes, in as few as it needs and at least one. */
  lemma HexlifyWholeBytes(n: nat)
    ensures |Hexlify(n)| % 2 == 0 && 2 <= |Hexlify(n)|
    ensures n < Pow16(|Hexlify(n)|)
    ensures 2 < |Hexlify(n)| ==> Pow16(|Hexlify(n)| - 2) <= n
  {
    hide Pow16;
    var size := |HexDigits(n)|;
    HexDigitsLength(n, size);
    HexDigitsLength(n, size + 1);
    HexDigitsLength(n, 2);
    if 2 <= size {
      HexDigitsLength(n, size - 1);
      HexDigitsLength(n, size - 2);
    }
  }

  lemma HexlifyParses(n: nat)
    ensures ParseHex(Hexlify(n)) == n
    ensures ToLowerCase(Hexlify(n)) == Hexlify(n)
  {
    var digits := HexDigits(n);
    HexDigitsParse(n);
    if digits == "" {
      ParseZero();
      assert ToLowerCase("00") == "00";
    } else if |digits| % 2 == 1 {
      LeadingZero(digits);
      LowerZero(digits);
    }
  }

  /** The fee field always parses back to the fee, and has six digits exactly for fees below 2^24. */
  lemma FeeFieldProperties(fee: nat)
    ensures ParseHex(FeeField(fee)) == fee
    ensures ToLowerCase(FeeField(fee)) == FeeField(fee)
    ensures FEE_SIZE <= |FeeField(fee)|
    ensures |FeeField(fee)| == FEE_SIZE <==> fee < 0x100_0000
  {
    HexlifyLength(fee);
    HexlifyParses(fee);
    PaddedField(Hexlify(fee), FEE_SIZE);
    assert Pow16(FEE_SIZE) == 0x100_0000;
  }

  // ----- Round trip -----

  /** A token address: 0x and twenty bytes. */
  predicate IsAddress(a: string) {
    |a| == 2 + ADDRESS_SIZE && a[..2] == "0x"
  }

  predicate AreAddresses(path: seq<string>) {
    forall i :: 0 <= i < |path| ==> IsAddress(path[i])
  }

  /** The fees that a Uniswap V3 pool can have. */
  predicate AreUint24(fees: seq<int>) {
    forall i :: 0 <= i < |fees| ==> 0 <= fees[i] < 0x100_0000
  }

  function LowerPath(path: seq<string>): seq<string> {
    seq(|path|, i requires 0 <= i < |path| => ToLowerCase(path[i]))
  }

  lemma LowerConcat(s: string, t: string)
    ensures ToLowerCase(s + t) == ToLowerCase(s) + ToLowerCase(t)
  {
  }

  lemma Uint24Cons(fees: seq<int>, i: nat)
    requires i < |fees|
    ensures AreUint24(fees[i..]) <==> 0 <= fees[i] < 0x100_0000 && AreUint24(fees[i + 1..])
  {
  }

  lemma {:induction false} TailLength(path: seq<string>, fees: seq<int>, i: nat)
    requires |path| == |fees| + 1 && i <= |fees| && AreAddresses(path) && AreSafeFees(fees)
    ensures var packed := ADDRESS_SIZE * (|path| - i) + FEE_SIZE * (|fees| - i);
      && packed <= |Tail(path, fees, i)|
      && (|Tail(path, fees, i)| == packed <==> AreUint24(fees[i..]))
    decreases |fees| - i
  {
    if i != |fees| {
      TailLength(path, fees, i + 1);
      FeeFieldProperties(fees[i]);
      Uint24Cons(fees, i);
      assert |Tail(path, fees, i)| == ADDRESS_SIZE + |FeeField(fees[i])| + |Tail(path, fees, i + 1)|;
    }
  }

  /** One step of decoding reads one address and one fee. */
  lemma DecodeStep(here: string, field: string, rest: string)
    requires |here| == ADDRESS_SIZE && |field| == FEE_SIZE
    ensures var (path, fees) := DecodeTail(rest);
      DecodeTail(here + field + rest) == (["0x" + here] + path, [ParseHex(field)] + fees)
  {
    var all := here + field + rest;
    assert all[..ADDRESS_SIZE] == here;
    assert all[ADDRESS_SIZE..ADDRESS_SIZE + FEE_SIZE] == field;
    assert all[ADDRESS_SIZE + FEE_SIZE..] == rest;
  }

  lemma LowerTail(path: seq<string>, fees: seq<int>, i: nat)
    requires |path| == |fees| + 1 && i < |fees| && AreUint24(fees)
    ensures ToLowerCase(Tail(path, fees, i))
         == ToLowerCase(Slice2(path[i])) + FeeField(fees[i]) + ToLowerCase(Tail(path, fees, i + 1))
  {
    FeeFieldProperties(fees[i]);
    LowerConcat(Slice2(path[i]) + FeeField(fees[i]), Tail(path, fees, i + 1));
    LowerConcat(Slice2(path[i]), FeeField(fees[i]));
  }

  lemma LowerAddress(a: string)
    requires IsAddress(a)
    ensures |ToLowerCase(Slice2(a))| == ADDRESS_SIZE
    ensures "0x" + ToLowerCase(Slice2(a)) == ToLowerCase(a)
  {
  }

  lemma {:induction false} TailDecodes(path: seq<string>, fees: seq<int>, i: nat)
    requires |path| == |fees| + 1 && i <= |fees| && AreAddresses(path) && AreUint24(fees)
    ensures DecodeTail(ToLowerCase(Tail(path, fees, i))) == (LowerPath(path)[i..], fees[i..])
    decreases |fees| - i
  {
    hide ToLowerCase, Slice2, FeeField, ParseHex, LowerPath, DecodeTail;
    var here := ToLowerCase(Slice2(path[i]));
    LowerAddress(path[i]);
    LowerPathCons(path, i);
    if i == |fees| {
      DecodeLast(here);
    } else {
      TailDecodes(path, fees, i + 1);
      FeeFieldProperties(fees[i]);
      LowerTail(path, fees, i);
      DecodeStep(here, FeeField(fees[i]), ToLowerCase(Tail(path, fees, i + 1)));
      assert fees[i..] == [fees[i]] + fees[i + 1..];
    }
  }

  lemma LowerPathCons(path: seq<string>, i: nat)
    requires i < |path|
    ensures LowerPath(path)[i..] == [ToLowerCase(path[i])] + LowerPath(path)[i + 1..]
    ensures i + 1 == |path| ==> LowerPath(path)[i..] == [ToLowerCase(path[i])]
  {
  }

  lemma DecodeLast(here: string)
    requires |here| == ADDRESS_SIZE
    ensures DecodeTail(here) == (["0x" + here], [])
  {
  }

  /** Decoding gives back the addresses, in lower case, and the fees. */
  lemma DecodeEncoded(path: seq<string>, fees: seq<int>)
    requires |path| == |fees| + 1 && AreAddresses(path) && AreUint24(fees)
    ensures Decode(Encoded(path, fees)) == (LowerPath(path), fees)
  {
    LowerConcat("0x", Tail(path, fees, 0));
    assert ToLowerCase("0x") == "0x";
    assert Slice2(Encoded(path, fees)) == ToLowerCase(Tail(path, fees, 0));
    TailDecodes(path, fees, 0);
  }

  /** The encoding has 20 bytes an address and three a fee exactly when every fee is below 2^24;
      a larger fee widens its field. */
  lemma EncodedLength(path: seq<string>, fees: seq<int>)
    requires |path| == |fees| + 1 && AreAddresses(path) && AreSafeFees(fees)
    ensures |Encoded(path, fees)| == 2 + ADDRESS_SIZE * |path| + FEE_SIZE * |fees| <==> AreUint24(fees)
  {
    TailLength(path, fees, 0);
    assert fees[0..] == fees;
  }

  /** Two trades share an encoding exactly when their fees are equal and their addresses differ at
      most in case. */
  lemma EncodingIsInjective(path: seq<string>, fees: seq<int>, path': seq<string>, fees': seq<int>)
    requires |path| == |fees| + 1 && AreAddresses(path) && AreUint24(fees)
    requires |path'| == |fees'| + 1 && AreAddresses(path') && AreUint24(fees')
    ensures Encoded(path, fees) == Encoded(path', fees') <==> LowerPath(path) == LowerPath(path') && fees == fees'
  {
    DecodeEncoded(path, fees);
    DecodeEncoded(path', fees');
    if LowerPath(path) == LowerPath(path') && fees == fees' {
      SameTails(path, path', fees, 0);
      LowerConcat("0x", Tail(path, fees, 0));
      LowerConcat("0x", Tail(path', fees, 0));
    }
  }

  lemma {:induction false} SameTails(path: seq<string>, path': seq<string>, fees: seq<int>, i: nat)
    requires |path| == |path'| == |fees| + 1 && i <= |fees|
    requires AreAddresses(path) && AreAddresses(path') && AreUint24(fees)
    requires LowerPath(path) == LowerPath(path')
    ensures ToLowerCase(Tail(path, fees, i)) == ToLowerCase(Tail(path', fees, i))
    decreases |fees| - i
  {
    assert ToLowerCase(path[i]) == LowerPath(path)[i] == LowerPath(path')[i] == ToLowerCase(path'[i]);
    LowerSlice(path[i]);
    LowerSlice(path'[i]);
    if i != |fees| {
      hide ToLowerCase, Slice2, FeeField, LowerPath;
      SameTails(path, path', fees, i + 1);
      LowerTail(path, fees, i);
      LowerTail(path', fees, i);
    }
  }

  lemma LowerSlice(a: string)
    requires 2 <= |a|
    ensures ToLowerCase(Slice2(a)) == ToLowerCase(a)[2..]
  {
  }

  // ----- Lower case and layout -----

  predicate IsHexDigit(c: char) {
    '0' <= c <= '9' || 'a' <= c <= 'f' || 'A' <= c <= 'F'
  }

  /** Lower-casing leaves no capital, and changes neither what a hex digit is worth nor anything else. */
  lemma LowerCharKeepsDigits(c: char)
    ensures !('A' <= LowerChar(c) <= 'Z')
    ensures !('A' <= c <= 'Z') ==> LowerChar(c) == c
    ensures IsHexDigit(c) ==> IsHexDigit(LowerChar(c)) && HexValue(LowerChar(c)) == HexValue(c)
  {
  }

  /** The encoding is a 0x string without capitals. */
  lemma EncodingIsLowerCase(path: seq<string>, fees: seq<int>)
    requires |path| == |fees| + 1 && AreSafeFees(fees)
    ensures 2 <= |Encoded(path, fees)| && Encoded(path, fees)[..2] == "0x"
    ensures forall i :: 0 <= i < |Encoded(path, fees)| ==> !('A' <= Encoded(path, fees)[i] <= 'Z')
  {
    LowerConcat("0x", Tail(path, fees, 0));
    assert ToLowerCase("0x") == "0x";
  }

  lemma {:induction false} LowerKeepsValue(s: string)
    requires forall i :: 0 <= i < |s| ==> IsHexDigit(s[i])
    ensures ParseHex(ToLowerCase(s)) == ParseHex(s)
  {
    if s != "" {
      var n := |s| - 1;
      LowerKeepsValue(s[..n]);
      LowerCharKeepsDigits(s[n]);
      assert ToLowerCase(s)[..n] == ToLowerCase(s[..n]);
    }
  }

  /** The addresses that come back are the same twenty bytes. */
  lemma DecodedAddressesHaveSameValue(path: seq<string>, fees: seq<int>, i: nat)
    requires |path| == |fees| + 1 && AreAddresses(path) && AreUint24(fees) && i < |path|
    requires forall j :: 2 <= j < |path[i]| ==> IsHexDigit(path[i][j])
    ensures |Decode(Encoded(path, fees)).0| == |path|
    ensures ParseHex(Slice2(Decode(Encoded(path, fees)).0[i])) == ParseHex(Slice2(path[i]))
  {
    DecodeEncoded(path, fees);
    LowerKeepsValue(Slice2(path[i]));
    assert Slice2(ToLowerCase(path[i])) == ToLowerCase(Slice2(path[i]));
  }

  /** Where address i starts in the encoding; its fee follows it. */
  function Offset(i: nat): nat {
    2 + (ADDRESS_SIZE + FEE_SIZE) * i
  }

  /** The encoding holds address i in lower case at its place, and fee i in hex after it. */
  lemma EncodedLayout(path: seq<string>, fees: seq<int>, i: nat)
    requires |path| == |fees| + 1 && AreAddresses(path) && AreUint24(fees) && i < |path|
    ensures Offset(i) + ADDRESS_SIZE <= |Encoded(path, fees)|
    ensures Encoded(path, fees)[Offset(i)..Offset(i) + ADDRESS_SIZE] == ToLowerCase(Slice2(path[i]))
    ensures i < |fees| ==>
      && Offset(i + 1) <= |Encoded(path, fees)|
      && ParseHex(Encoded(path, fees)[Offset(i) + ADDRESS_SIZE..Offset(i + 1)]) == fees[i]
  {
    assert AreSafeFees(fees);
    hide ToLowerCase, Tail, Slice2, FeeField, ParseHex, DropsTo, Encoded;
    var low, rest := ToLowerCase(Tail(path, fees, 0)), ToLowerCase(Tail(path, fees, i));
    EncodedIsTail(path, fees);
    TailFrom(path, fees, i);
    TailParts(path, fees, i);
    OffsetIs(i);
    SliceFrom(low, rest, Offset(i) - 2, 0, ADDRESS_SIZE);
    if i < |fees| {
      SliceFrom(low, rest, Offset(i) - 2, ADDRESS_SIZE, ADDRESS_SIZE + FEE_SIZE);
    }
  }

  lemma EncodedIsTail(path: seq<string>, fees: seq<int>)
    requires |path| == |fees| + 1 && AreSafeFees(fees)
    ensures Encoded(path, fees) == "0x" + ToLowerCase(Tail(path, fees, 0))
  {
    LowerConcat("0x", Tail(path, fees, 0));
    assert ToLowerCase("0x") == "0x";
  }

  lemma OffsetIs(i: nat)
    ensures Offset(i) - 2 == (ADDRESS_SIZE + FEE_SIZE) * i
    ensures Offset(i + 1) == Offset(i) + ADDRESS_SIZE + FEE_SIZE
  {
  }

  /** What is left of the encoding from address i on begins with that address and its fee. */
  lemma TailParts(path: seq<string>, fees: seq<int>, i: nat)
    requires |path| == |fees| + 1 && AreAddresses(path) && AreUint24(fees) && i < |path|
    ensures var rest := ToLowerCase(Tail(path, fees, i));
      && ADDRESS_SIZE <= |rest| && rest[0..ADDRESS_SIZE] == ToLowerCase(Slice2(path[i]))
      && (i < |fees| ==>
            && ADDRESS_SIZE + FEE_SIZE <= |rest|
            && ParseHex(rest[ADDRESS_SIZE..ADDRESS_SIZE + FEE_SIZE]) == fees[i]
            && rest[ADDRESS_SIZE + FEE_SIZE..] == ToLowerCase(Tail(path, fees, i + 1)))
  {
    var here, rest := ToLowerCase(Slice2(path[i])), ToLowerCase(Tail(path, fees, i));
    LowerAddress(path[i]);
    if i < |fees| {
      FeeFieldProperties(fees[i]);
      LowerTail(path, fees, i);
      var field, more := FeeField(fees[i]), ToLowerCase(Tail(path, fees, i + 1));
      hide ToLowerCase, Slice2, FeeField, ParseHex;
      assert rest == here + field + more;
      assert rest[0..ADDRESS_SIZE] == here;
      assert rest[ADDRESS_SIZE..ADDRESS_SIZE + FEE_SIZE] == field;
      assert rest[ADDRESS_SIZE + FEE_SIZE..] == more;
    } else {
      assert rest[0..ADDRESS_SIZE] == here;
    }
  }

  lemma SliceFrom(low: string, rest: string, k: nat, a: nat, b: nat)
    requires DropsTo(low, k, rest) && a <= b <= |rest|
    ensures 2 + k + b <= |"0x" + low| && ("0x" + low)[2 + k + a..2 + k + b] == rest[a..b]
  {
  }

  lemma {:induction false} TailFrom(path: seq<string>, fees: seq<int>, i: nat)
    requires |path| == |fees| + 1 && AreAddresses(path) && AreUint24(fees) && AreSafeFees(fees) && i < |path|
    ensures DropsTo(ToLowerCase(Tail(path, fees, 0)), (ADDRESS_SIZE + FEE_SIZE) * i, ToLowerCase(Tail(path, fees, i)))
  {
    hide ToLowerCase, Tail, Slice2, FeeField, DropsTo;
    var low := ToLowerCase(Tail(path, fees, 0));
    if i == 0 {
      DropNone(low);
    } else {
      TailFrom(path, fees, i - 1);
      TailParts(path, fees, i - 1);
      DropTwice(
        low, (ADDRESS_SIZE + FEE_SIZE) * (i - 1), ADDRESS_SIZE + FEE_SIZE,
        ToLowerCase(Tail(path, fees, i - 1)), ToLowerCase(Tail(path, fees, i)));
    }
  }

  /** What is left of s without its first k characters is t. */
  predicate DropsTo(s: string, k: int, t: string) {
    0 <= k <= |s| && s[k..] == t
  }

  lemma DropNone(s: string)
    ensures DropsTo(s, 0, s)
  {
  }

  lemma DropTwice(s: string, k: nat, n: nat, t: string, rest: string)
    requires DropsTo(s, k, t) && n <= |t| && t[n..] == rest
    ensures DropsTo(s, k + n, rest)
  {
  }
}
