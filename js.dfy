/** The few JavaScript value semantics the student API relies on: the
    truthiness test `!x`, the conversion `String(x)` (also done implicitly by
    template strings and by the store client), and `String.prototype.split`
    with a one-character separator. */
module Js {

  datatype Option<T> = None | Some(value: T)

  /** A scalar value of a JSON request body: a string or an integral number. */
  datatype Json = JStr(str: string) | JNum(num: int)

  /** JavaScript truthiness of a scalar: "" and 0 are falsy, everything else truthy. */
  predicate IsTruthy(v: Json) {
    match v
    case JStr(s) => s != ""
    case JNum(n) => n != 0
  }

  /** A character that `String(n)` can produce for an integer `n`. */
  predicate IsNumeralChar(c: char) {
    '0' <= c <= '9' || c == '-'
  }

  /** The character of a decimal digit. */
  function DigitChar(d: nat): (c: char)
    requires d < 10
    ensures '0' <= c <= '9' && DigitValue(c) == d
  {
    ('0' as int + d) as char
  }

  /** The value of a decimal digit character. */
  function DigitValue(c: char): nat
    requires '0' <= c <= '9'
  {
    c as int - '0' as int
  }

  /** The decimal numeral of a natural number, most significant digit first. */
  function Digits(n: nat): (r: string)
    ensures r != []
    ensures forall i :: 0 <= i < |r| ==> '0' <= r[i] <= '9'
    ensures n < 10 <==> |r| == 1
    ensures |r| > 1 ==> r[0] != '0'
  {
    if n < 10 then [DigitChar(n)] else Digits(n / 10) + [DigitChar(n % 10)]
  }

  /** The number a string of decimal digits denotes. */
  function NatOf(s: string): nat
    requires forall i :: 0 <= i < |s| ==> '0' <= s[i] <= '9'
  {
    if s == [] then 0 else NatOf(s[..|s| - 1]) * 10 + DigitValue(s[|s| - 1])
  }

  /** Reading the numeral back gives the number: Digits loses nothing. */
  lemma {:induction false} DigitsRoundTrip(n: nat)
    ensures NatOf(Digits(n)) == n
  {
    if n >= 10 {
      DigitsRoundTrip(n / 10);
      var r := Digits(n);
      assert r[..|r| - 1] == Digits(n / 10);
    }
  }

  /** `String(n)` for an integer `n`: a minus sign for negatives, then the digits. */
  function Decimal(n: int): (r: string)
    ensures r != []
    ensures r[0] == '-' <==> n < 0
    ensures forall i :: 0 <= i < |r| ==> IsNumeralChar(r[i])
    ensures forall i :: 1 <= i < |r| ==> '0' <= r[i] <= '9'
  {
    if n < 0 then "-" + Digits(-n) else Digits(n)
  }

  /** The integer a numeral denotes: an optional leading minus, then digits. */
  function IntOf(s: string): int
    requires s != [] && forall i :: 1 <= i < |s| ==> '0' <= s[i] <= '9'
    requires s[0] == '-' || '0' <= s[0] <= '9'
  {
    if s[0] == '-' then -(NatOf(s[1..]) as int) else NatOf(s)
  }

  /** Reading `String(n)` back gives `n`. */
  lemma DecimalRoundTrip(n: int)
    ensures IntOf(Decimal(n)) == n
  {
    if n < 0 {
      DigitsRoundTrip(-n);
      assert Decimal(n)[1..] == Digits(-n);
    } else {
      DigitsRoundTrip(n);
    }
  }

  /** Distinct integers have distinct numerals, so distinct numeric ids give
      distinct keys. */
  lemma DecimalInjective(a: int, b: int)
    ensures Decimal(a) == Decimal(b) <==> a == b
  {
    if Decimal(a) == Decimal(b) {
      DecimalRoundTrip(a);
      DecimalRoundTrip(b);
    }
  }

  /** `String(v)`: the text the store receives for a body value. */
  function Text(v: Json): (r: string)
    ensures IsTruthy(v) ==> r != ""
    ensures v.JNum? ==> forall i :: 0 <= i < |r| ==> IsNumeralChar(r[i])
  {
    match v
    case JStr(s) => s
    case JNum(n) => Decimal(n)
  }

  /** `s.split(sep)`: the maximal runs of `s` between occurrences of `sep`;
      `"".split(sep)` is `[""]` and a trailing separator yields a final `""`. */
  function Split(s: string, sep: char): (parts: seq<string>)
    ensures |parts| >= 1
    ensures forall i :: 0 <= i < |parts| ==> sep !in parts[i]
  {
    if s == [] then [[]]
    else
      var rest := Split(s[1..], sep);
      if s[0] == sep then [[]] + rest
      else [[s[0]] + rest[0]] + rest[1..]
  }

  /** A split gives a single piece exactly when the separator does not occur. */
  lemma {:induction false} SplitSingle(s: string, sep: char)
    ensures |Split(s, sep)| == 1 <==> sep !in s
  {
    if s != [] {
      SplitSingle(s[1..], sep);
      assert sep in s <==> s[0] == sep || sep in s[1..] by {
        assert s == [s[0]] + s[1..];
      }
    }
  }

  /** `parts.join(sep)`: the inverse of Split. */
  function Join(parts: seq<string>, sep: char): string
    requires |parts| >= 1
  {
    if |parts| == 1 then parts[0] else parts[0] + [sep] + Join(parts[1..], sep)
  }

  /** Splitting loses nothing: joining the pieces gives the string back. */
  lemma {:induction false} SplitJoin(s: string, sep: char)
    ensures Join(Split(s, sep), sep) == s
  {
    if s != [] {
      var rest := Split(s[1..], sep);
      SplitJoin(s[1..], sep);
      if s[0] != sep && |rest| > 1 {
        assert Join(rest, sep) == rest[0] + [sep] + Join(rest[1..], sep);
        assert ([[s[0]] + rest[0]] + rest[1..])[1..] == rest[1..];
      }
    }
  }

  /** The first piece of a split is a prefix of the string; it is the whole
      string exactly when the separator does not occur. */
  lemma FirstPiece(s: string, sep: char)
    ensures Split(s, sep)[0] <= s
    ensures Split(s, sep)[0] == s <==> sep !in s
  {
    var parts := Split(s, sep);
    SplitJoin(s, sep);
    if |parts| > 1 {
      assert s == parts[0] + [sep] + Join(parts[1..], sep);
      assert s[|parts[0]|] == sep;
    }
  }

  /** One step of Split: how a leading character joins the pieces of the rest. */
  lemma SplitCons(c: char, t: string, sep: char)
    ensures Split([c] + t, sep) ==
      if c == sep then [[]] + Split(t, sep)
      else [[c] + Split(t, sep)[0]] + Split(t, sep)[1..]
  {
    assert ([c] + t)[1..] == t;
  }

  /** A prefix free of the separator glues onto the first piece of the rest. */
  lemma {:induction false} SplitSeparatorFree(p: string, q: string, sep: char)
    requires sep !in p
    ensures Split(p + q, sep) == [p + Split(q, sep)[0]] + Split(q, sep)[1..]
  {
    var parts := Split(q, sep);
    if p == [] {
      assert p + q == q && p + parts[0] == parts[0];
      assert parts == [parts[0]] + parts[1..];
    } else {
      assert p + q == [p[0]] + (p[1..] + q);
      SplitCons(p[0], p[1..] + q, sep);
      SplitSeparatorFree(p[1..], q, sep);
      assert [p[0]] + (p[1..] + parts[0]) == p + parts[0];
    }
  }

  /** Splitting at the first separator: a separator-free head becomes the first piece. */
  lemma SplitAtFirst(p: string, q: string, sep: char)
    requires sep !in p
    ensures Split(p + [sep] + q, sep) == [p] + Split(q, sep)
  {
    SplitSeparatorFree(p, [sep] + q, sep);
    SplitCons(sep, q, sep);
    assert p + [sep] + q == p + ([sep] + q);
    var tail := Split([sep] + q, sep);
    assert tail[0] == [] && tail[1..] == Split(q, sep);
    assert p + tail[0] == p;
  }
}
