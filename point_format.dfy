/** The text of a tree-sitter `Point` as written by `format!("{}", point)`:
    `(row, column)`, both in decimal without leading zeros. */
module PointFormat {
  import opened Bytes
  import opened SyntaxTree

  predicate IsDigit(b: byte)
  {
    DIGIT_ZERO <= b <= DIGIT_NINE
  }

  predicate AllDigits(s: seq<byte>)
  {
    forall i :: 0 <= i < |s| ==> IsDigit(s[i])
  }

  /** Decimal text of `n`, as Rust's `Display` for unsigned integers writes it. */
  function Decimal(n: nat): seq<byte>
  {
    if n < 10 then [DIGIT_ZERO + n] else Decimal(n / 10) + [DIGIT_ZERO + n % 10]
  }

  /** The decimal text is a non-empty run of digits without a leading zero. */
  lemma {:induction false} DecimalShape(n: nat)
    ensures |Decimal(n)| >= 1 && AllDigits(Decimal(n))
    ensures Decimal(n)[0] == DIGIT_ZERO <==> n == 0
  {
    if n >= 10 {
      DecimalShape(n / 10);
      var s := Decimal(n);
      assert s == Decimal(n / 10) + [DIGIT_ZERO + n % 10];
      assert s[0] == Decimal(n / 10)[0];
    }
  }

  /** The number a string of decimal digits denotes. */
  function DigitsValue(s: seq<byte>): nat
    requires AllDigits(s)
  {
    if s == [] then 0
    else
      assert IsDigit(s[|s| - 1]);
      DigitsValue(s[..|s| - 1]) * 10 + (s[|s| - 1] - DIGIT_ZERO)
  }

  /** Reading the decimal text back gives the number. */
  lemma {:induction false} DecimalRoundTrip(n: nat)
    ensures AllDigits(Decimal(n)) && DigitsValue(Decimal(n)) == n
  {
    DecimalShape(n);
    if n >= 10 {
      var s := Decimal(n);
      assert s[..|s| - 1] == Decimal(n / 10);
      DecimalRoundTrip(n / 10);
    }
  }

  /** `Point`'s `Display`. */
  function PointText(p: Point): seq<byte>
  {
    [LPAREN] + Decimal(p.row) + [COMMA, SPACE] + Decimal(p.column) + [RPAREN]
  }

  /** A position's text never holds a quote or a line break. */
  lemma PointTextPrintable(p: Point)
    ensures QUOTE !in PointText(p) && NEWLINE !in PointText(p)
  {
    var r, c := Decimal(p.row), Decimal(p.column);
    DecimalShape(p.row);
    DecimalShape(p.column);
    assert QUOTE !in r && NEWLINE !in r;
    assert QUOTE !in c && NEWLINE !in c;
  }

  /** Two decimal numbers followed by a non-digit: equal texts mean equal numbers. */
  lemma DecimalPrefixInjective(m: nat, n: nat, s: seq<byte>, t: seq<byte>)
    requires s != [] && !IsDigit(s[0]) && t != [] && !IsDigit(t[0])
    requires Decimal(m) + s == Decimal(n) + t
    ensures m == n && s == t
  {
    var dm, dn := Decimal(m), Decimal(n);
    DecimalShape(m);
    DecimalShape(n);
    assert dm == (dm + s)[..|dm|];
    assert dn == (dn + t)[..|dn|];
    assert s == (dm + s)[|dm|..];
    assert t == (dn + t)[|dn|..];
    DecimalRoundTrip(m);
    DecimalRoundTrip(n);
  }

  /** A position's text followed by anything determines the position: a reader
      can recover both the point and what follows it. */
  lemma PointTextPrefixInjective(p: Point, q: Point, s: seq<byte>, t: seq<byte>)
    requires PointText(p) + s == PointText(q) + t
    ensures p == q && s == t
  {
    var restP := [COMMA, SPACE] + Decimal(p.column) + [RPAREN] + s;
    var restQ := [COMMA, SPACE] + Decimal(q.column) + [RPAREN] + t;
    assert (PointText(p) + s)[1..] == Decimal(p.row) + restP;
    assert (PointText(q) + t)[1..] == Decimal(q.row) + restQ;
    DecimalPrefixInjective(p.row, q.row, restP, restQ);
    assert restP[2..] == Decimal(p.column) + ([RPAREN] + s);
    assert restQ[2..] == Decimal(q.column) + ([RPAREN] + t);
    DecimalPrefixInjective(p.column, q.column, [RPAREN] + s, [RPAREN] + t);
    assert s == ([RPAREN] + s)[1..];
    assert t == ([RPAREN] + t)[1..];
  }
}
