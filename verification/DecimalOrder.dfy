/** JavaScript's `<` and `>` on BigNumber objects. Neither operand is a number, so both are turned
    into decimal strings and these are compared character by character. */
module DecimalOrder {
  import opened Arithmetic
  import opened MathUtils

  function Digit(n: nat): char
    requires n < 10
  {
    ('0' as int + n) as char
  }

  function Decimal(n: nat): string {
    if n < 10 then [Digit(n)] else Decimal(n / 10) + [Digit(n % 10)]
  }

  function ToString(x: int): string {
    if x < 0 then "-" + Decimal(-x) else Decimal(x)
  }

  predicate StringLess(s: string, t: string) {
    if t == "" then false
    else if s == "" then true
    else if s[0] != t[0] then s[0] < t[0]
    else StringLess(s[1..], t[1..])
  }

  /** `a < b` as the engine evaluates it. */
  predicate JsLess(a: int, b: int) {
    StringLess(ToString(a), ToString(b))
  }

  function JsMin(valueOne: int, valueTwo: int): int {
    if JsLess(valueOne, valueTwo) then valueOne else valueTwo
  }

  function Pow10(k: nat): (p: nat)
    ensures 0 < p
  {
    if k == 0 then 1 else 10 * Pow10(k - 1)
  }

  function Size(n: nat): nat {
    |Decimal(n)|
  }

  // ----- Strings -----

  lemma {:induction false} CompareBack(s: string, t: string, c: char, d: char)
    requires |s| == |t|
    ensures StringLess(s + [c], t + [d]) <==> StringLess(s, t) || (s == t && c < d)
  {
    if s == "" {
      assert s + [c] == [c] && t + [d] == [d];
    } else {
      assert (s + [c])[1..] == s[1..] + [c] && (t + [d])[1..] == t[1..] + [d];
      CompareBack(s[1..], t[1..], c, d);
      assert s == [s[0]] + s[1..] && t == [t[0]] + t[1..];
    }
  }

  lemma {:induction false} CompareExtra(s: string, t: string, more: string)
    requires |s| == |t| && more != ""
    ensures StringLess(s, t + more) <==> StringLess(s, t) || s == t
    ensures StringLess(t + more, s) <==> StringLess(t, s)
  {
    if s == "" {
      assert t + more == more;
    } else {
      assert (t + more)[1..] == t[1..] + more;
      CompareExtra(s[1..], t[1..], more);
      assert s == [s[0]] + s[1..] && t == [t[0]] + t[1..];
    }
  }

  // ----- Decimals -----

  lemma {:induction false} EqualSizeOrder(a: nat, b: nat)
    requires Size(a) == Size(b)
    ensures StringLess(Decimal(a), Decimal(b)) <==> a < b
    ensures Decimal(a) == Decimal(b) <==> a == b
  {
    if a < 10 {
      SizeOne(b);
    } else {
      SizeOne(a);
      SizeOne(b);
      EqualSizeOrder(a / 10, b / 10);
      CompareBack(Decimal(a / 10), Decimal(b / 10), Digit(a % 10), Digit(b % 10));
      SameBack(Decimal(a / 10), Decimal(b / 10), Digit(a % 10), Digit(b % 10));
    }
  }

  lemma SizeOne(n: nat)
    ensures 1 <= Size(n)
    ensures Size(n) == 1 <==> n < 10
  {
    if 10 <= n {
      assert 1 <= |Decimal(n / 10)|;
    }
  }

  lemma SameBack(s: string, t: string, c: char, d: char)
    ensures s + [c] == t + [d] <==> s == t && c == d
  {
    if s + [c] == t + [d] {
      assert (s + [c])[..|s|] == s && (t + [d])[..|t|] == t;
      assert (s + [c])[|s|] == c && (t + [d])[|t|] == d;
    }
  }

  /** What is left of n without its last k digits. */
  function Lead(n: nat, k: nat): nat {
    if k == 0 then n else Lead(n / 10, k - 1)
  }

  lemma {:induction false} LeadIsQuotient(n: nat, k: nat)
    ensures Lead(n, k) == n / Pow10(k)
  {
    if k != 0 {
      LeadIsQuotient(n / 10, k - 1);
      DivideTwice(n, Pow10(k - 1));
    }
  }

  lemma {:induction false} LeadingDigits(n: nat, k: nat)
    requires k < Size(n)
    ensures Decimal(n)[..Size(n) - k] == Decimal(Lead(n, k))
  {
    if k == 0 {
      assert Decimal(n)[..Size(n)] == Decimal(n);
    } else {
      SizeOne(n);
      LeadingDigits(n / 10, k - 1);
      DropLast(Decimal(n / 10), Digit(n % 10), Size(n) - k);
    }
  }

  lemma DropLast(s: string, c: char, m: nat)
    requires m <= |s|
    ensures (s + [c])[..m] == s[..m]
  {
  }

  lemma DivideTwice(n: nat, p: nat)
    requires 0 < p
    ensures n / 10 / p == n / (10 * p)
  {
    var q := n / 10 / p;
    Floor(n, 10);
    Floor(n / 10, p);
    assert q * (10 * p) == q * p * 10;
    FloorGe(n, 10 * p, q);
    FloorLe(n, 10 * p, q);
  }

  lemma {:induction false} SizeGrows(a: nat, b: nat)
    requires a <= b
    ensures Size(a) <= Size(b)
  {
    if 10 <= b {
      if 10 <= a {
        SizeGrows(a / 10, b / 10);
      } else {
        SizeOne(b);
        SizeOne(a);
      }
    }
  }

  // ----- What the comparison means -----

  /** A number's digits are those of its leading part followed by the k that were dropped. */
  lemma SplitDigits(n: nat, k: nat) returns (lead: nat, rest: string)
    requires 0 < k < Size(n)
    ensures lead == n / Pow10(k) && Size(lead) == Size(n) - k
    ensures rest != "" && Decimal(n) == Decimal(lead) + rest
  {
    LeadIsQuotient(n, k);
    LeadingDigits(n, k);
    lead, rest := Lead(n, k), Decimal(n)[Size(n) - k..];
  }

  lemma ShorterFirst(a: nat, b: nat)
    requires Size(a) < Size(b)
    ensures StringLess(Decimal(a), Decimal(b)) <==> a <= b / Pow10(Size(b) - Size(a))
    ensures StringLess(Decimal(b), Decimal(a)) <==> b / Pow10(Size(b) - Size(a)) < a
  {
    SizeOne(a);
    var lead, rest := SplitDigits(b, Size(b) - Size(a));
    CompareExtra(Decimal(a), Decimal(lead), rest);
    EqualSizeOrder(a, lead);
    EqualSizeOrder(lead, a);
  }

  /** The shorter number is compared with as many leading digits of the longer one, and counts as
      less when they are equal. */
  lemma ComparesLeadingDigits(a: nat, b: nat)
    ensures Size(a) == Size(b) ==> (JsLess(a, b) <==> a < b)
    ensures Size(a) < Size(b) ==> (JsLess(a, b) <==> a <= b / Pow10(Size(b) - Size(a)))
    ensures Size(b) < Size(a) ==> (JsLess(a, b) <==> a / Pow10(Size(a) - Size(b)) < b)
  {
    if Size(a) == Size(b) {
      EqualSizeOrder(a, b);
    } else if Size(a) < Size(b) {
      ShorterFirst(a, b);
    } else {
      ShorterFirst(b, a);
    }
  }

  /** JavaScript's minimum is the minimum exactly when the digit counts agree or the shorter number
      is at most the leading digits of the longer one. */
  lemma JsMinIsMinIff(a: nat, b: nat)
    ensures JsMin(a, b) == a || JsMin(a, b) == b
    ensures JsMin(a, b) == Min(a, b) <==>
      if Size(a) < Size(b) then a <= b / Pow10(Size(b) - Size(a))
      else if Size(b) < Size(a) then b <= a / Pow10(Size(a) - Size(b))
      else true
  {
    ComparesLeadingDigits(a, b);
    if a < b {
      SizeGrows(a, b);
    } else {
      SizeGrows(b, a);
    }
  }

  /** Comparing with zero, as the rebalancing does, is right for every integer. */
  lemma JsPositiveIsPositive(x: int)
    ensures JsLess(0, x) <==> 0 < x
  {
    SizeOne(0);
    if x < 0 {
      assert ToString(0)[0] == '0' && ToString(x)[0] == '-';
    } else if x < 10 {
      SizeOne(x);
      ComparesLeadingDigits(0, x);
    } else {
      SizeOne(x);
      ComparesLeadingDigits(0, x);
      Floor(x, Pow10(Size(x) - Size(0)));
    }
  }
}
