/** Text as SQLite and Rust's formatter see it: byte order and decimal digits. */
module Text {

  datatype Option<+T> = None | Some(value: T) {
    function GetOr(default: T): T {
      match this
      case Some(v) => v
      case None => default
    }
  }

  lemma Associative<T>(a: seq<T>, b: seq<T>, c: seq<T>)
    ensures a + (b + c) == a + b + c
  {
  }

  /** Order of two TEXT values under SQLite's BINARY collation. UTF-8 bytes sort
      like code points, so comparing characters is comparing bytes. */
  predicate Less(a: string, b: string) {
    |b| > 0 && (|a| == 0 || a[0] < b[0] || (a[0] == b[0] && Less(a[1..], b[1..])))
  }

  predicate LessEq(a: string, b: string) {
    a == b || Less(a, b)
  }

  lemma {:induction false} LessIrreflexive(a: string)
    ensures !Less(a, a)
  {
    if |a| > 0 {
      LessIrreflexive(a[1..]);
    }
  }

  lemma {:induction false} LessTransitive(a: string, b: string, c: string)
    requires Less(a, b) && Less(b, c)
    ensures Less(a, c)
  {
    if |a| > 0 && a[0] == b[0] && b[0] == c[0] {
      LessTransitive(a[1..], b[1..], c[1..]);
    }
  }

  lemma {:induction false} LessTotal(a: string, b: string)
    ensures Less(a, b) || a == b || Less(b, a)
  {
    if |a| > 0 && |b| > 0 && a[0] == b[0] {
      LessTotal(a[1..], b[1..]);
      if a[1..] == b[1..] {
        assert a == [a[0]] + a[1..] && b == [b[0]] + b[1..];
      }
    }
  }

  lemma NotAfterIsAtMost(a: string, b: string)
    ensures !Less(b, a) <==> LessEq(a, b)
  {
    LessTotal(a, b);
    LessIrreflexive(a);
    if Less(a, b) && Less(b, a) {
      LessTransitive(a, b, a);
    }
  }

  function Digit(d: nat): char
    requires d < 10
  {
    (48 + d) as char
  }

  /** `{}` formatting of an unsigned integer. */
  function Decimal(n: nat): (s: string)
    ensures |s| >= 1 && forall c :: c in s ==> '0' <= c <= '9'
  {
    if n < 10 then [Digit(n)] else Decimal(n / 10) + [Digit(n % 10)]
  }

  /** `{:0w}` formatting of an unsigned integer: never truncates. */
  function Padded(n: nat, width: nat): string {
    var s := Decimal(n);
    seq(if |s| < width then width - |s| else 0, _ => '0') + s
  }

  /** `str::len`: bytes of the UTF-8 encoding. */
  function Utf8Len(s: string): nat {
    if |s| == 0 then 0
    else
      var n := s[0] as int;
      (if n < 0x80 then 1 else if n < 0x800 then 2 else if n < 0x10000 then 3 else 4) + Utf8Len(s[1..])
  }

  /** The number a digit string denotes; `None` for anything else. */
  function ParseDecimal(s: string): Option<nat> {
    if |s| == 0 then None
    else
      var c := s[|s| - 1];
      if !('0' <= c <= '9') then None
      else if |s| == 1 then Some(c as nat - 48)
      else match ParseDecimal(s[..|s| - 1])
        case None => None
        case Some(n) => Some(10 * n + (c as nat - 48))
  }

  lemma {:induction false} ParseOfDecimal(n: nat)
    ensures ParseDecimal(Decimal(n)) == Some(n)
  {
    if n >= 10 {
      ParseOfDecimal(n / 10);
      var s := Decimal(n);
      assert s[..|s| - 1] == Decimal(n / 10);
      assert s[|s| - 1] == Digit(n % 10);
    }
  }

  lemma DecimalExamples()
    ensures Decimal(0) == "0" && Decimal(7) == "7" && Decimal(12) == "12" && Decimal(890) == "890"
  {
    assert Decimal(1) == "1" && Decimal(8) == "8" && Decimal(89) == "8" + "9" && Decimal(12) == "1" + "2";
    assert Decimal(890) == Decimal(89) + "0";
  }

  /** Bytes of UTF-8: one below 0x80, two below 0x800, three below 0x10000, else four. */
  lemma {:induction false} Utf8LenExactly(s: string, c: char)
    ensures Utf8Len("") == 0
    ensures Utf8Len(s + [c]) == Utf8Len(s) + if c as int <= 0x7F then 1 else if c as int <= 0x7FF then 2
                                             else if c as int <= 0xFFFF then 3 else 4
  {
    if |s| > 0 {
      Utf8LenExactly(s[1..], c);
      assert (s + [c])[1..] == s[1..] + [c];
    } else {
      assert s + [c] == [c] && [c][1..] == "";
    }
  }

  lemma PaddedTwo(n: nat)
    requires n < 100
    ensures Padded(n, 2) == [Digit(n / 10), Digit(n % 10)]
  {
    if n >= 10 {
      assert Decimal(n) == [Digit(n / 10)] + [Digit(n % 10)];
    }
  }

  lemma DecimalStep(n: nat)
    ensures Decimal(n) == (if n < 10 then [] else Decimal(n / 10)) + [Digit(n % 10)]
  {
  }

  lemma PaddedFour(n: nat)
    requires n < 10000
    ensures Padded(n, 4) == [Digit(n / 1000), Digit(n / 100 % 10), Digit(n / 10 % 10), Digit(n % 10)]
  {
    hide Decimal;
    DecimalStep(n);
    DecimalStep(n / 10);
    DecimalStep(n / 100);
    DecimalStep(n / 1000);
    assert n / 10 / 10 == n / 100 && n / 100 / 10 == n / 1000;
  }

  /** Fixed-width fields compare like the numbers they hold, most significant first. */
  lemma LessDigit(a: nat, b: nat, s: string, t: string)
    requires a < 10 && b < 10
    ensures Less([Digit(a)] + s, [Digit(b)] + t) <==> a < b || (a == b && Less(s, t))
  {
    assert ([Digit(a)] + s)[1..] == s && ([Digit(b)] + t)[1..] == t;
  }

  lemma LessPaddedTwo(a: nat, b: nat, s: string, t: string)
    requires a < 100 && b < 100
    ensures Less(Padded(a, 2) + s, Padded(b, 2) + t) <==> a < b || (a == b && Less(s, t))
  {
    PaddedTwo(a);
    PaddedTwo(b);
    LessDigit(a / 10, b / 10, [Digit(a % 10)] + s, [Digit(b % 10)] + t);
    LessDigit(a % 10, b % 10, s, t);
    Associative([Digit(a / 10)], [Digit(a % 10)], s);
    Associative([Digit(b / 10)], [Digit(b % 10)], t);
  }

  lemma FourDigits(n: nat)
    requires n < 10000
    ensures n / 100 < 100 && n / 100 / 10 == n / 1000
    ensures n % 100 / 10 == n / 10 % 10 && n % 100 % 10 == n % 10
  {
    var h, l := n / 100, n % 100;
    var a, b, c, d := h / 10, h % 10, l / 10, l % 10;
    assert n == 1000 * a + 100 * b + 10 * c + d;
    assert n / 10 == 100 * a + 10 * b + c;
  }

  lemma PaddedFourSplits(n: nat)
    requires n < 10000
    ensures Padded(n, 4) == Padded(n / 100, 2) + Padded(n % 100, 2)
  {
    FourDigits(n);
    PaddedFour(n);
    PaddedTwo(n / 100);
    PaddedTwo(n % 100);
  }

  lemma LessPaddedFour(a: nat, b: nat, s: string, t: string)
    requires a < 10000 && b < 10000
    ensures Less(Padded(a, 4) + s, Padded(b, 4) + t) <==> a < b || (a == b && Less(s, t))
  {
    PaddedFourSplits(a);
    PaddedFourSplits(b);
    hide Padded, Decimal, Less;
    LessPaddedTwo(a / 100, b / 100, Padded(a % 100, 2) + s, Padded(b % 100, 2) + t);
    LessPaddedTwo(a % 100, b % 100, s, t);
    Associative(Padded(a / 100, 2), Padded(a % 100, 2), s);
    Associative(Padded(b / 100, 2), Padded(b % 100, 2), t);
  }
}
