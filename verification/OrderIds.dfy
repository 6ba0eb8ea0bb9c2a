/** Order ids of `order-matching-engine.cpp`: the text "order-" followed by a decimal number,
    compared as strings. */
module OrderIds {

  /** Lexicographic `<` of strings. */
  predicate StringLess(a: string, b: string) {
    if b == [] then false
    else if a == [] then true
    else if a[0] != b[0] then a[0] < b[0]
    else StringLess(a[1..], b[1..])
  }

  function DigitChar(d: nat): char
    requires d < 10
  {
    '0' + d as char
  }

  /** Decimal printing. */
  function Decimal(n: nat): (s: string)
    ensures |s| > 0
  {
    if n < 10 then [DigitChar(n)] else Decimal(n / 10) + [DigitChar(n % 10)]
  }

  function OrderId(n: nat): string {
    "order-" + Decimal(n)
  }

  /** A number without its last d decimal digits. */
  function Cut(n: nat, d: nat): nat {
    if d == 0 then n else Cut(n / 10, d - 1)
  }

  // -- The order on strings -----------------------------------------------------

  lemma {:induction false} StringLessIrreflexive(a: string)
    ensures !StringLess(a, a)
  {
    if a != [] {
      StringLessIrreflexive(a[1..]);
    }
  }

  lemma {:induction false} StringLessTransitive(a: string, b: string, c: string)
    requires StringLess(a, b) && StringLess(b, c)
    ensures StringLess(a, c)
  {
    if a != [] && a[0] == b[0] == c[0] {
      StringLessTransitive(a[1..], b[1..], c[1..]);
    }
  }

  lemma {:induction false} StringLessTotal(a: string, b: string)
    ensures StringLess(a, b) || a == b || StringLess(b, a)
  {
    if a != [] && b != [] && a[0] == b[0] {
      StringLessTotal(a[1..], b[1..]);
      assert a == [a[0]] + a[1..] && b == [b[0]] + b[1..];
    }
  }

  lemma {:induction false} CommonPrefix(p: string, a: string, b: string)
    ensures StringLess(p + a, p + b) <==> StringLess(a, b)
  {
    if p == [] {
      assert p + a == a && p + b == b;
    } else {
      assert (p + a)[1..] == p[1..] + a && (p + b)[1..] == p[1..] + b;
      CommonPrefix(p[1..], a, b);
    }
  }

  /** Strings of one length compare by their first difference. */
  lemma {:induction false} AppendedDigit(a: string, b: string, x: char, y: char)
    requires |a| == |b|
    ensures StringLess(a + [x], b + [y]) <==> StringLess(a, b) || (a == b && x < y)
  {
    if a == [] {
      assert a + [x] == [x] && b + [y] == [y];
      assert StringLess([x], [y]) <==> x < y by {
        assert [x][1..] == [] && [y][1..] == [];
      }
    } else {
      assert (a + [x])[1..] == a[1..] + [x] && (b + [y])[1..] == b[1..] + [y];
      AppendedDigit(a[1..], b[1..], x, y);
      assert a == [a[0]] + a[1..] && b == [b[0]] + b[1..];
    }
  }

  /** A string compared with a longer one: only the longer one's prefix matters. */
  lemma {:induction false} LongerString(a: string, b: string, c: string)
    requires |a| == |b| && |c| > 0
    ensures StringLess(a, b + c) <==> StringLess(a, b) || a == b
  {
    if a == [] {
      assert b + c == c;
    } else {
      assert (b + c)[1..] == b[1..] + c;
      LongerString(a[1..], b[1..], c);
      assert a == [a[0]] + a[1..] && b == [b[0]] + b[1..];
    }
  }

  // -- Decimal numbers ------------------------------------------------------------

  /** Numbers with equally many digits print in numeric order. */
  lemma {:induction false} DecimalMonotone(i: nat, j: nat)
    requires |Decimal(i)| == |Decimal(j)|
    ensures StringLess(Decimal(i), Decimal(j)) <==> i < j
    ensures Decimal(i) == Decimal(j) <==> i == j
  {
    if i < 10 || j < 10 {
      AppendedDigit([], [], DigitChar(i), DigitChar(j));
      assert [] + Decimal(i) == Decimal(i) && [] + Decimal(j) == Decimal(j);
    } else {
      DecimalMonotone(i / 10, j / 10);
      var a, b, x, y := Decimal(i / 10), Decimal(j / 10), DigitChar(i % 10), DigitChar(j % 10);
      AppendedDigit(a, b, x, y);
      assert a == (a + [x])[..|a|] && x == (a + [x])[|a|];
      assert b == (b + [y])[..|b|] && y == (b + [y])[|b|];
    }
  }

  lemma {:induction false} DecimalPrefix(j: nat, d: nat)
    requires d < |Decimal(j)|
    ensures Decimal(j)[..|Decimal(j)| - d] == Decimal(Cut(j, d))
  {
    var s := Decimal(j);
    if d == 0 {
      assert s[..|s|] == s;
    } else {
      var s' := Decimal(j / 10);
      assert s == s' + [DigitChar(j % 10)];
      DecimalPrefix(j / 10, d - 1);
      assert s[..|s| - d] == s'[..|s'| - (d - 1)];
    }
  }

  lemma OrderIdInjective(i: nat, j: nat)
    ensures OrderId(i) == OrderId(j) <==> i == j
  {
    if OrderId(i) == OrderId(j) {
      assert Decimal(i) == OrderId(i)[6..] && Decimal(j) == OrderId(j)[6..];
      DecimalMonotone(i, j);
    }
  }

  /** Exactly when the earlier of two order ids sorts first: the earlier number must not exceed
      the later one cut to the same number of digits. */
  lemma IdOrder(i: nat, j: nat, d: nat)
    requires i < j && |Decimal(j)| == |Decimal(i)| + d
    ensures StringLess(OrderId(i), OrderId(j)) <==> i <= Cut(j, d)
  {
    CommonPrefix("order-", Decimal(i), Decimal(j));
    DecimalOrder(i, j, d);
  }

  lemma DecimalOrder(i: nat, j: nat, d: nat)
    requires i < j && |Decimal(j)| == |Decimal(i)| + d
    ensures StringLess(Decimal(i), Decimal(j)) <==> i <= Cut(j, d)
  {
    if d == 0 {
      DecimalMonotone(i, j);
    } else {
      var a, s := Decimal(i), Decimal(j);
      DecimalPrefix(j, d);
      var p := Cut(j, d);
      DecimalMonotone(i, p);
      assert s == Decimal(p) + s[|a|..];
      LongerString(a, Decimal(p), s[|a|..]);
    }
  }

  /** Ids with equally many digits sort by age. */
  lemma SameLengthIdOrder(i: nat, j: nat)
    requires i < j && |Decimal(i)| == |Decimal(j)|
    ensures StringLess(OrderId(i), OrderId(j))
  {
    IdOrder(i, j, 0);
  }

  /** Time priority fails across digit counts: the tenth order sorts before the ninth. */
  lemma TenBeforeNine()
    ensures OrderId(9) == "order-9" && OrderId(10) == "order-10"
    ensures StringLess(OrderId(10), OrderId(9)) && !StringLess(OrderId(9), OrderId(10))
  {
    assert Decimal(10) == Decimal(1) + [DigitChar(0)] == "10";
    assert Cut(10, 1) == 1;
    IdOrder(9, 10, 1);
    OrderIdInjective(9, 10);
    StringLessTotal(OrderId(9), OrderId(10));
  }
}
