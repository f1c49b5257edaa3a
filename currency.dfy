/**
  Rendering of amounts in Brazilian style (`format_currency`).

  The application formats a number with Python's `{:,.2f}` (comma between
  groups of three digits, dot before two fraction digits), prefixes "R$",
  and then swaps the two separators through a placeholder:
  `,` becomes `X`, `.` becomes `,`, `X` becomes `.`.

  Amounts are integer centavos here: `cents` stands for the value
  `cents / 100`, so the two fraction digits are exact.
*/
module Currency {
  import opened Wrappers

  /** The currency symbol every rendered amount starts with. */
  const PREFIX: string := "R$"

  /** The placeholder the replace chain parks commas on. */
  const PLACEHOLDER: char := 'X'

  predicate IsDigit(c: char) {
    '0' <= c <= '9'
  }

  function DigitChar(d: nat): (c: char)
    requires d < 10
    ensures IsDigit(c) && c as int - '0' as int == d
  {
    ('0' as int + d) as char
  }

  function Abs(x: int): nat {
    if x < 0 then -x else x
  }

  /** Decimal digits of n, most significant first; "0" for zero and no leading zeros otherwise. */
  function Digits(n: nat): (s: string)
    ensures 1 <= |s|
    ensures forall i :: 0 <= i < |s| ==> IsDigit(s[i])
    ensures s[0] == '0' ==> n == 0
    ensures n == 0 ==> |s| == 1 && s[0] == '0'
    decreases n
  {
    if n < 10 then [DigitChar(n)] else Digits(n / 10) + [DigitChar(n % 10)]
  }

  /** Inserts `sep` before every group of three characters, counted from the right. */
  function Group(d: string, sep: char): (g: string)
    ensures |d| >= 1 ==> |g| >= 1 && g[0] == d[0]
    decreases |d|
  {
    if |d| <= 3 then d else Group(d[..|d| - 3], sep) + [sep] + d[|d| - 3..]
  }

  /** The two fraction digits of a number of centavos below 100. */
  function TwoDigits(f: nat): string
    requires f < 100
  {
    [DigitChar(f / 10), DigitChar(f % 10)]
  }

  /** Python's `format(cents / 100, ",.2f")`: the sign, the whole part grouped by ",", then "." and two digits. */
  function PyFormat(cents: int): (s: string)
    ensures (|s| >= 1 && s[0] == '-') <==> cents < 0
    ensures |s| >= 4 && s[|s| - 3] == '.' && IsDigit(s[|s| - 2]) && IsDigit(s[|s| - 1])
  {
    var m := Abs(cents);
    (if cents < 0 then "-" else "") + Group(Digits(m / 100), ',') + "." + TwoDigits(m % 100)
  }

  /** Python's `str.replace` for one character by one character: every occurrence is replaced. */
  function Replace(s: string, from: char, to: char): (r: string)
    ensures |r| == |s|
    ensures from != to ==> from !in r
    ensures forall i :: 0 <= i < |s| && s[i] == from ==> r[i] == to
    ensures forall i :: 0 <= i < |s| && s[i] != from ==> r[i] == s[i]
  {
    seq(|s|, i requires 0 <= i < |s| => if s[i] == from then to else s[i])
  }

  /** The three replacements applied to the prefixed Python rendering. */
  function ReplaceChain(s: string): (r: string)
    ensures |r| == |s|
    ensures PLACEHOLDER !in r
    ensures forall i :: 0 <= i < |s| && s[i] !in {',', '.', PLACEHOLDER} ==> r[i] == s[i]
  {
    Replace(Replace(Replace(s, ',', PLACEHOLDER), '.', ','), PLACEHOLDER, '.')
  }

  /** format_currency(value), with value given in centavos. */
  function FormatCurrency(cents: int): (r: string)
    ensures |r| >= |PREFIX| + 4 && r[..|PREFIX|] == PREFIX
    ensures PLACEHOLDER !in r
  {
    ReplaceChain(PREFIX + PyFormat(cents))
  }

  // ---------------------------------------------------------------------------
  // Reference definition: the Brazilian rendering written out directly.

  function SwapChar(c: char): char {
    if c == ',' then '.' else if c == '.' then ',' else c
  }

  /** Exchanges the roles of "," and "." and leaves every other character alone. */
  function SwapSeparators(s: string): string {
    seq(|s|, i requires 0 <= i < |s| => SwapChar(s[i]))
  }

  /** The sign, the whole part grouped by ".", then "," and exactly two fraction digits. */
  function BrazilianAmount(cents: int): string {
    var m := Abs(cents);
    (if cents < 0 then "-" else "") + Group(Digits(m / 100), '.') + "," + TwoDigits(m % 100)
  }

  /** The placeholder detour is an exact swap of "," and "." as long as the text holds no placeholder. */
  lemma ReplaceChainSwaps(s: string)
    requires PLACEHOLDER !in s
    ensures ReplaceChain(s) == SwapSeparators(s)
  {
    var r := ReplaceChain(s);
    assert |r| == |s|;
    forall i | 0 <= i < |s|
      ensures r[i] == SwapSeparators(s)[i]
    {
      assert s[i] != PLACEHOLDER by { assert s[i] in s; }
    }
  }

  lemma SwapAppend(a: string, b: string)
    ensures SwapSeparators(a + b) == SwapSeparators(a) + SwapSeparators(b)
  {
    var l, r := SwapSeparators(a + b), SwapSeparators(a) + SwapSeparators(b);
    assert |l| == |r|;
    forall i | 0 <= i < |l| ensures l[i] == r[i] {
      if i < |a| { assert (a + b)[i] == a[i]; } else { assert (a + b)[i] == b[i - |a|]; }
    }
  }

  predicate AllDigits(s: string) {
    forall i :: 0 <= i < |s| ==> IsDigit(s[i])
  }

  lemma SwapDigits(s: string)
    requires AllDigits(s)
    ensures SwapSeparators(s) == s
  {
  }

  /** Grouping with "," and then swapping gives grouping with ".". */
  lemma {:induction false} SwapGroup(d: string)
    requires AllDigits(d)
    ensures SwapSeparators(Group(d, ',')) == Group(d, '.')
    decreases |d|
  {
    if |d| <= 3 {
      SwapDigits(d);
    } else {
      var p, q := d[..|d| - 3], d[|d| - 3..];
      SwapGroup(p);
      SwapAppend(Group(p, ',') + [','], q);
      SwapAppend(Group(p, ','), [',']);
      SwapDigits(q);
    }
  }

  /** Grouping adds one separator for every full group of three below the leading group. */
  lemma {:induction false} GroupLength(d: string, sep: char)
    requires |d| >= 1
    ensures |Group(d, sep)| == |d| + (|d| - 1) / 3
    decreases |d|
  {
    if |d| > 3 {
      GroupLength(d[..|d| - 3], sep);
    }
  }

  /**
    Counting from the right end of a grouping of digits, the separator sits
    exactly at every fourth place: after each full group of three digits.
  */
  lemma {:induction false} GroupPositions(d: string, sep: char)
    requires AllDigits(d) && !IsDigit(sep)
    ensures var g := Group(d, sep);
      forall j :: 0 <= j < |g| ==> (g[|g| - 1 - j] == sep <==> j % 4 == 3)
    decreases |d|
  {
    var g := Group(d, sep);
    if |d| <= 3 {
      forall j | 0 <= j < |g| ensures g[|g| - 1 - j] == sep <==> j % 4 == 3 {
        assert IsDigit(d[|d| - 1 - j]);
      }
    } else {
      var p, q := d[..|d| - 3], d[|d| - 3..];
      var gp := Group(p, sep);
      GroupPositions(p, sep);
      assert g == gp + [sep] + q;
      forall j | 0 <= j < |g| ensures g[|g| - 1 - j] == sep <==> j % 4 == 3 {
        if j < 3 {
          assert g[|g| - 1 - j] == q[2 - j];
          assert IsDigit(d[|d| - 1 - j]);
        } else if j > 3 {
          assert g[|g| - 1 - j] == gp[|gp| - 1 - (j - 4)];
          assert (j - 4) % 4 == j % 4;
        }
      }
    }
  }

  /** Every character of a grouping is one of the grouped characters or the separator. */
  lemma {:induction false} GroupChars(d: string, sep: char)
    ensures forall c :: c in Group(d, sep) ==> c in d || c == sep
    decreases |d|
  {
    if |d| > 3 {
      var p := d[..|d| - 3];
      GroupChars(p, sep);
      forall c | c in p ensures c in d {
        var k :| 0 <= k < |p| && p[k] == c;
        assert d[k] == c;
      }
    }
  }

  /** Python's rendering never holds the placeholder: it is made of a sign, digits and separators. */
  lemma PyFormatHasNoPlaceholder(cents: int)
    ensures PLACEHOLDER !in PREFIX + PyFormat(cents)
  {
    var sign := if cents < 0 then "-" else "";
    var d := Digits(Abs(cents) / 100);
    var g := Group(d, ',');
    var t := TwoDigits(Abs(cents) % 100);
    PyFormatPieces(cents);
    GroupChars(d, ',');
    assert PLACEHOLDER !in d by {
      forall k | 0 <= k < |d| ensures d[k] != PLACEHOLDER {
        assert IsDigit(d[k]);
      }
    }
    assert PLACEHOLDER !in g;
    assert PLACEHOLDER !in PREFIX + sign;
    assert PLACEHOLDER !in "." + t;
  }

  lemma SwapPieces(head: string, g: string, t: string)
    requires AllDigits(t)
    ensures SwapSeparators(head + g + ("." + t)) == SwapSeparators(head) + SwapSeparators(g) + ("," + t)
  {
    SwapAppend(head + g, "." + t);
    SwapAppend(head, g);
    SwapAppend(".", t);
    SwapDigits(t);
    assert SwapSeparators(".") == ",";
  }

  lemma SwapSign(sign: string)
    requires sign == "" || sign == "-"
    ensures SwapSeparators(PREFIX + sign) == PREFIX + sign
  {
    SwapAppend(PREFIX, sign);
    assert SwapSeparators(PREFIX) == PREFIX;
    assert SwapSeparators(sign) == sign;
  }

  lemma PyFormatPieces(cents: int)
    ensures PREFIX + PyFormat(cents)
      == (PREFIX + (if cents < 0 then "-" else "")) + Group(Digits(Abs(cents) / 100), ',') + ("." + TwoDigits(Abs(cents) % 100))
  {
    var sign, g, t := if cents < 0 then "-" else "", Group(Digits(Abs(cents) / 100), ','), TwoDigits(Abs(cents) % 100);
    assert PyFormat(cents) == sign + g + "." + t;
    Reassociate(PREFIX, sign, g, ".", t);
  }

  lemma BrazilianPieces(cents: int)
    ensures PREFIX + BrazilianAmount(cents)
      == (PREFIX + (if cents < 0 then "-" else "")) + Group(Digits(Abs(cents) / 100), '.') + ("," + TwoDigits(Abs(cents) % 100))
  {
    var sign, g, t := if cents < 0 then "-" else "", Group(Digits(Abs(cents) / 100), '.'), TwoDigits(Abs(cents) % 100);
    assert BrazilianAmount(cents) == sign + g + "," + t;
    Reassociate(PREFIX, sign, g, ",", t);
  }

  lemma Reassociate(p: string, sign: string, g: string, sep: string, t: string)
    ensures p + (sign + g + sep + t) == (p + sign) + g + (sep + t)
  {
  }

  /** Swapping the separators of Python's rendering gives the Brazilian one. */
  lemma SwapPyFormat(cents: int)
    ensures SwapSeparators(PREFIX + PyFormat(cents)) == PREFIX + BrazilianAmount(cents)
  {
    var sign := if cents < 0 then "-" else "";
    var d := Digits(Abs(cents) / 100);
    var t := TwoDigits(Abs(cents) % 100);
    PyFormatPieces(cents);
    BrazilianPieces(cents);
    SwapPieces(PREFIX + sign, Group(d, ','), t);
    SwapGroup(d);
    SwapSign(sign);
  }

  /** format_currency is the Brazilian rendering behind the "R$" prefix (the sign comes after the prefix). */
  lemma FormatCurrencyIsBrazilian(cents: int)
    ensures FormatCurrency(cents) == PREFIX + BrazilianAmount(cents)
  {
    PyFormatHasNoPlaceholder(cents);
    ReplaceChainSwaps(PREFIX + PyFormat(cents));
    SwapPyFormat(cents);
  }

  // ---------------------------------------------------------------------------
  // Reading a rendered amount back.

  /** The body after "R$" and the sign: whole part of digits and ".", then "," and two digits. */
  predicate WellFormedBody(b: string) {
    && |b| >= 4
    && IsDigit(b[0])
    && b[|b| - 3] == ',' && IsDigit(b[|b| - 2]) && IsDigit(b[|b| - 1])
    && forall i :: 0 <= i < |b| - 3 ==> IsDigit(b[i]) || b[i] == '.'
  }

  function Pow10(k: nat): nat {
    if k == 0 then 1 else 10 * Pow10(k - 1)
  }

  /** How many decimal digits s holds. */
  function DigitCount(s: string): nat {
    if s == [] then 0
    else DigitCount(s[..|s| - 1]) + (if IsDigit(s[|s| - 1]) then 1 else 0)
  }

  /** The number spelled by the decimal digits of s, read left to right, skipping every other character. */
  function DigitsValue(s: string): nat {
    if s == [] then 0
    else
      var c := s[|s| - 1];
      if IsDigit(c) then 10 * DigitsValue(s[..|s| - 1]) + (c as int - '0' as int)
      else DigitsValue(s[..|s| - 1])
  }

  /** Reads a rendering such as "R$-1.234,50" back into centavos; None when it is not one. */
  function ParseCurrency(s: string): Option<int> {
    if |s| < |PREFIX| || s[..|PREFIX|] != PREFIX then None
    else
      var negative := |s| > |PREFIX| && s[|PREFIX|] == '-';
      var body := s[if negative then |PREFIX| + 1 else |PREFIX|..];
      var v: int := DigitsValue(body);
      if !WellFormedBody(body) then None
      else Some(if negative then -v else v)
  }

  lemma {:induction false} DigitsValueAppend(a: string, b: string)
    ensures DigitsValue(a + b) == DigitsValue(a) * Pow10(DigitCount(b)) + DigitsValue(b)
    decreases |b|
  {
    if b == [] {
      assert a + b == a;
    } else {
      var b' := b[..|b| - 1];
      var c := b[|b| - 1];
      assert (a + b)[..|a + b| - 1] == a + b';
      DigitsValueAppend(a, b');
      var k := DigitCount(b');
      var va, vb, p := DigitsValue(a), DigitsValue(b'), Pow10(k);
      assert DigitsValue(a + b') == va * p + vb;
      if IsDigit(c) {
        var d := c as int - '0' as int;
        assert DigitsValue(a + b) == 10 * (va * p + vb) + d;
        assert DigitsValue(b) == 10 * vb + d;
        assert Pow10(DigitCount(b)) == 10 * p;
        ShiftProduct(va, p);
      } else {
        assert DigitsValue(a + b) == va * p + vb;
        assert DigitsValue(b) == vb && DigitCount(b) == k;
      }
    }
  }

  lemma ShiftProduct(x: int, p: int)
    ensures 10 * (x * p) == x * (10 * p)
  {
  }

  /** Reading the digits of n gives n back. */
  lemma {:induction false} DigitsValueOfDigits(n: nat)
    ensures DigitsValue(Digits(n)) == n
    decreases n
  {
    if n >= 10 {
      DigitsValueOfDigits(n / 10);
      var s := Digits(n / 10) + [DigitChar(n % 10)];
      assert s[..|s| - 1] == Digits(n / 10);
    }
  }

  lemma {:induction false} DigitsValueGroup(d: string)
    ensures DigitsValue(Group(d, '.')) == DigitsValue(d)
    decreases |d|
  {
    if |d| > 3 {
      var p, q := d[..|d| - 3], d[|d| - 3..];
      DigitsValueGroup(p);
      DigitsValueAppend(Group(p, '.') + ['.'], q);
      var g := Group(p, '.') + ['.'];
      assert g[..|g| - 1] == Group(p, '.');
      DigitsValueAppend(p, q);
      assert p + q == d;
    }
  }

  lemma TwoDigitsValue(f: nat)
    requires f < 100
    ensures DigitCount(TwoDigits(f)) == 2 && DigitsValue(TwoDigits(f)) == f
  {
    var t := TwoDigits(f);
    var t1 := t[..1];
    assert t1 == [t[0]];
    assert t1[..0] == [];
    assert DigitCount(t1) == 1 && DigitsValue(t1) == f / 10;
    assert t[..|t| - 1] == t1;
    assert DigitsValue(t) == 10 * (f / 10) + f % 10;
  }

  /** The text after the sign in a Brazilian rendering of w reais and f centavos. */
  function Body(w: nat, f: nat): string
    requires f < 100
  {
    Group(Digits(w), '.') + "," + TwoDigits(f)
  }

  lemma BodyWellFormed(w: nat, f: nat)
    requires f < 100
    ensures WellFormedBody(Body(w, f))
  {
    var d := Digits(w);
    var g := Group(d, '.');
    var body := Body(w, f);
    GroupChars(d, '.');
    forall i | 0 <= i < |body| - 3 ensures IsDigit(body[i]) || body[i] == '.' {
      assert body[i] == g[i];
      assert g[i] in g;
    }
  }

  lemma BodyValue(w: nat, f: nat)
    requires f < 100
    ensures DigitsValue(Body(w, f)) == 100 * w + f
  {
    var g := Group(Digits(w), '.');
    var t := TwoDigits(f);
    assert Body(w, f) == (g + ",") + t;
    DigitsValueAppend(g + ",", t);
    assert (g + ",")[..|g|] == g;
    DigitsValueGroup(Digits(w));
    DigitsValueOfDigits(w);
    TwoDigitsValue(f);
  }

  /** The body of a Brazilian rendering is well formed and spells the absolute amount. */
  lemma BodyOfBrazilian(cents: int)
    ensures WellFormedBody(BrazilianAmount(cents)[if cents < 0 then 1 else 0..])
    ensures DigitsValue(BrazilianAmount(cents)[if cents < 0 then 1 else 0..]) == Abs(cents)
  {
    var m := Abs(cents);
    var sign := if cents < 0 then "-" else "";
    var body := Body(m / 100, m % 100);
    assert BrazilianAmount(cents) == sign + body;
    assert (sign + body)[|sign|..] == body;
    BodyWellFormed(m / 100, m % 100);
    BodyValue(m / 100, m % 100);
  }

  /**
    What every rendering looks like: "R$", then "-" exactly when the amount
    is negative, then a whole part made of digits and ".", and "," with two
    fraction digits at the end.
  */
  lemma FormatCurrencyShape(cents: int)
    ensures var s := FormatCurrency(cents);
      && |s| >= |PREFIX| + 4
      && s[..|PREFIX|] == PREFIX
      && (s[|PREFIX|] == '-' <==> cents < 0)
      && WellFormedBody(s[if cents < 0 then |PREFIX| + 1 else |PREFIX|..])
      && PLACEHOLDER !in s
  {
    FormatCurrencyIsBrazilian(cents);
    BodyOfBrazilian(cents);
    var s := FormatCurrency(cents);
    var body := s[if cents < 0 then |PREFIX| + 1 else |PREFIX|..];
    assert body == BrazilianAmount(cents)[if cents < 0 then 1 else 0..];
    assert PLACEHOLDER !in s by {
      forall i | 0 <= i < |s| ensures s[i] != PLACEHOLDER {
        if i >= |s| - |body| {
          assert s[i] == body[i - (|s| - |body|)];
        }
      }
    }
  }

  /**
    The "." of a rendering are thousands separators: between the sign and
    the ",", counting from the right, every fourth character is "." and no
    other is.
  */
  lemma FormatCurrencyGrouping(cents: int)
    ensures var s := FormatCurrency(cents);
      var start := if cents < 0 then |PREFIX| + 1 else |PREFIX|;
      start <= |s| - 3 &&
      var w := s[start..|s| - 3];
      forall j :: 0 <= j < |w| ==> (w[|w| - 1 - j] == '.' <==> j % 4 == 3)
  {
    WholePart(cents);
    GroupPositions(Digits(Abs(cents) / 100), '.');
  }

  /** Between the sign and the "," of a rendering lies the whole part grouped by ".". */
  lemma WholePart(cents: int)
    ensures var s := FormatCurrency(cents);
      var start := if cents < 0 then |PREFIX| + 1 else |PREFIX|;
      start <= |s| - 3 && s[start..|s| - 3] == Group(Digits(Abs(cents) / 100), '.')
  {
    var sign := if cents < 0 then "-" else "";
    var g := Group(Digits(Abs(cents) / 100), '.');
    var t := TwoDigits(Abs(cents) % 100);
    FormatCurrencyIsBrazilian(cents);
    BrazilianPieces(cents);
    Middle(PREFIX + sign, g, "," + t);
  }

  lemma Middle(head: string, middle: string, tail: string)
    ensures var t := head + middle + tail;
      t[|head|..|t| - |tail|] == middle
  {
  }

  /** Round trip: the rendering of an amount reads back as that amount. */
  lemma ParseFormat(cents: int)
    ensures ParseCurrency(FormatCurrency(cents)) == Some(cents)
  {
    FormatCurrencyIsBrazilian(cents);
    FormatCurrencyShape(cents);
    BodyOfBrazilian(cents);
    var s := FormatCurrency(cents);
    assert s[if cents < 0 then |PREFIX| + 1 else |PREFIX|..]
        == BrazilianAmount(cents)[if cents < 0 then 1 else 0..];
  }

  lemma GroupExample(d: string)
    requires |d| == 4
    ensures Group(d, '.') == [d[0], '.', d[1], d[2], d[3]]
  {
    assert d[..1] == [d[0]];
  }

  lemma DigitsExample()
    ensures Digits(1234) == "1234"
  {
    assert Digits(1) == "1";
    assert Digits(12) == Digits(1) + "2";
    assert Digits(123) == Digits(12) + "3";
    assert Digits(1234) == Digits(123) + "4";
  }

  lemma BrazilianGroupedExample()
    ensures BrazilianAmount(123450) == "1.234,50"
  {
    var d := Digits(1234);
    DigitsExample();
    GroupExample(d);
    assert TwoDigits(50) == "50";
    assert BrazilianAmount(123450) == Group(d, '.') + "," + TwoDigits(50);
  }

  /** A grouped amount renders with "." between thousands and "," before the centavos. */
  lemma FormatCurrencyGroupedExample()
    ensures FormatCurrency(123450) == "R$1.234,50"
  {
    FormatCurrencyIsBrazilian(123450);
    BrazilianGroupedExample();
  }

  /** A negative amount renders with the sign after the prefix. */
  lemma FormatCurrencyNegativeExample()
    ensures FormatCurrency(-500) == "R$-5,00"
  {
    FormatCurrencyIsBrazilian(-500);
    assert Digits(5) == "5";
    assert TwoDigits(0) == "00";
  }
}
