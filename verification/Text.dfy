/** Text made of parts: decimal numbers, parts joined by a separator, and when the parts can be read
    back. */
module Text {
  // ---------------------------------------------------------------- rendering

  function Digit(d: nat): char
    requires d < 10
  {
    ['0', '1', '2', '3', '4', '5', '6', '7', '8', '9'][d]
  }

  function Decimal(n: nat): string {
    if n < 10 then [Digit(n)] else Decimal(n / 10) + [Digit(n % 10)]
  }

  function Join(parts: seq<string>, sep: char): string {
    if parts == [] then ""
    else if |parts| == 1 then parts[0]
    else parts[0] + [sep] + Join(parts[1..], sep)
  }

  /** A number that may be negative. */
  function Numeral(n: int): string {
    if n < 0 then "-" + Decimal(-n) else Decimal(n)
  }

  // ---------------------------------------------------------------- reading back

  lemma {:induction false} JoinInjective(a: seq<string>, b: seq<string>, sep: char)
    requires |a| == |b| >= 1
    requires forall i :: 0 <= i < |a| ==> sep !in a[i] && sep !in b[i]
    requires Join(a, sep) == Join(b, sep)
    ensures a == b
  {
    if |a| == 1 {
      assert a == [a[0]] && b == [b[0]];
    } else {
      SplitAtFirst(a[0], Join(a[1..], sep), b[0], Join(b[1..], sep), sep);
      JoinInjective(a[1..], b[1..], sep);
      assert a == [a[0]] + a[1..] && b == [b[0]] + b[1..];
    }
  }

  /** A text has only one split at its first separator. */
  lemma SplitAtFirst(a: string, restA: string, b: string, restB: string, sep: char)
    requires sep !in a && sep !in b
    requires a + [sep] + restA == b + [sep] + restB
    ensures a == b && restA == restB
  {
    var whole := a + [sep] + restA;
    assert whole[|a|] == sep;
    assert (b + [sep] + restB)[|b|] == sep;
    assert forall k :: 0 <= k < |a| ==> whole[k] == a[k] && a[k] in a;
    assert forall k :: 0 <= k < |b| ==> (b + [sep] + restB)[k] == b[k] && b[k] in b;
    assert |a| == |b|;
    assert a == whole[..|a|] && b == whole[..|b|];
    assert restA == whole[|a| + 1..] && restB == whole[|b| + 1..];
  }

  predicate IsDigit(c: char) {
    '0' <= c <= '9'
  }

  lemma {:induction false} DecimalIsDigits(n: nat)
    ensures |Decimal(n)| >= 1
    ensures forall c :: c in Decimal(n) ==> IsDigit(c)
  {
    if n >= 10 {
      DecimalIsDigits(n / 10);
    }
  }

  /** The number that a text of digits stands for. */
  function ReadDecimal(text: string): int {
    if text == "" then 0 else 10 * ReadDecimal(text[..|text| - 1]) + (text[|text| - 1] as int - '0' as int)
  }

  lemma DigitReads(d: nat)
    requires d < 10
    ensures Digit(d) as int == '0' as int + d
  {
  }

  /** Reading a number's text gives the number. */
  lemma {:induction false} DecimalReads(n: nat)
    ensures ReadDecimal(Decimal(n)) == n
  {
    DigitReads(n % 10);
    if n < 10 {
      DecimalOne(n);
      assert [Digit(n)][..0] == "";
    } else {
      DecimalLast(n);
      DecimalReads(n / 10);
    }
  }

  lemma DigitInjective(a: nat, b: nat)
    requires a < 10 && b < 10 && Digit(a) == Digit(b)
    ensures a == b
  {
  }

  lemma DecimalLast(n: nat)
    requires n >= 10
    ensures var s := Decimal(n); |s| >= 2 && s[|s| - 1] == Digit(n % 10) && s[..|s| - 1] == Decimal(n / 10)
  {
    DecimalIsDigits(n / 10);
  }

  lemma DecimalOne(n: nat)
    requires n < 10
    ensures Decimal(n) == [Digit(n)]
  {
  }

  lemma {:induction false} DecimalInjective(m: nat, n: nat)
    requires Decimal(m) == Decimal(n)
    ensures m == n
  {
    if m >= 10 {
      DecimalLast(m);
    } else {
      DecimalOne(m);
    }
    if n >= 10 {
      DecimalLast(n);
    } else {
      DecimalOne(n);
    }
    if m >= 10 && n >= 10 {
      DigitInjective(m % 10, n % 10);
      DecimalInjective(m / 10, n / 10);
    } else if m < 10 && n < 10 {
      DigitInjective(m, n);
    }
  }

  lemma {:induction false} JoinChars(parts: seq<string>, sep: char, c: char)
    requires c in Join(parts, sep)
    ensures c == sep || exists i :: 0 <= i < |parts| && c in parts[i]
  {
    if |parts| > 1 && c !in parts[0] && c != sep {
      JoinChars(parts[1..], sep, c);
    }
  }

  lemma NumeralChars(n: int)
    ensures |Numeral(n)| >= 1
    ensures forall c :: c in Numeral(n) ==> IsDigit(c) || c == '-'
  {
    DecimalIsDigits(if n < 0 then -n else n);
  }

  lemma {:induction false} NumeralSign(n: int)
    ensures |Numeral(n)| >= 1 && (Numeral(n)[0] == '-' <==> n < 0)
  {
    if n >= 0 {
      DecimalIsDigits(n);
      assert Decimal(n)[0] in Decimal(n);
    }
  }

  lemma {:induction false} NumeralTail(n: int)
    requires n < 0
    ensures |Numeral(n)| >= 1 && Numeral(n)[1..] == Decimal(-n)
  {
  }

  lemma {:induction false} NumeralInjective(m: int, n: int)
    requires Numeral(m) == Numeral(n)
    ensures m == n
  {
    NumeralSign(m);
    NumeralSign(n);
    if m < 0 {
      NumeralTail(m);
      NumeralTail(n);
      DecimalInjective(-m, -n);
    } else {
      DecimalInjective(m, n);
    }
  }

  lemma LastSplitIsLater(a: string, restA: string, b: string, restB: string, sep: char)
    requires sep !in restA
    requires a + [sep] + restA == b + [sep] + restB
    ensures |b| <= |a|
  {
    var whole := a + [sep] + restA;
    assert (b + [sep] + restB)[|b|] == sep;
    assert whole[|b|] == sep;
    assert forall k :: |a| < k < |whole| ==> whole[k] == restA[k - |a| - 1];
  }

  /** A text has only one split at its last separator. */
  lemma SplitAtLast(a: string, restA: string, b: string, restB: string, sep: char)
    requires sep !in restA && sep !in restB
    requires a + [sep] + restA == b + [sep] + restB
    ensures a == b && restA == restB
  {
    LastSplitIsLater(a, restA, b, restB, sep);
    LastSplitIsLater(b, restB, a, restA, sep);
    assert a == (a + [sep] + restA)[..|a|] && b == (b + [sep] + restB)[..|b|];
    assert restA == (a + [sep] + restA)[|a| + 1..] && restB == (b + [sep] + restB)[|b| + 1..];
  }

  lemma JoinStep(head: string, rest: seq<string>, sep: char)
    requires rest != []
    ensures Join([head] + rest, sep) == head + [sep] + Join(rest, sep)
  {
    assert ([head] + rest)[1..] == rest;
  }

  lemma {:induction false} JoinSnoc(parts: seq<string>, last: string, sep: char)
    requires parts != []
    ensures Join(parts + [last], sep) == Join(parts, sep) + [sep] + last
  {
    if |parts| == 1 {
      JoinStep(parts[0], [last], sep);
      assert parts + [last] == [parts[0]] + [last];
    } else {
      JoinSnoc(parts[1..], last, sep);
      JoinStep(parts[0], parts[1..] + [last], sep);
      assert parts + [last] == [parts[0]] + (parts[1..] + [last]);
    }
  }

  /** Two joined texts are equal exactly when their first `k` parts, joined, read the same and the
      others are equal, provided the others do not hold the separator. */
  lemma {:induction false} JoinsEqualExactly(a: seq<string>, b: seq<string>, k: nat, sep: char)
    requires 1 <= k <= |a| == |b|
    requires forall i :: k <= i < |a| ==> sep !in a[i] && sep !in b[i]
    ensures Join(a, sep) == Join(b, sep) <==> Join(a[..k], sep) == Join(b[..k], sep) && a[k..] == b[k..]
  {
    var n := |a| - 1;
    if n + 1 == k {
      assert a[..k] == a && b[..k] == b;
    } else {
      JoinsEqualExactly(a[..n], b[..n], k, sep);
      assert a[..n][..k] == a[..k] && b[..n][..k] == b[..k];
      TailsEqual(a, b, k);
      JoinsSplit(a, b, sep);
    }
  }

  lemma {:induction false} TailsEqual(a: seq<string>, b: seq<string>, k: nat)
    requires k < |a| == |b|
    ensures var n := |a| - 1; a[k..] == b[k..] <==> a[..n][k..] == b[..n][k..] && a[n] == b[n]
  {
    var n := |a| - 1;
    assert a[k..] == a[..n][k..] + [a[n]] && b[k..] == b[..n][k..] + [b[n]];
    if a[k..] == b[k..] {
      assert a[k..][n - k] == b[k..][n - k];
      assert a[..n][k..] == a[k..][..n - k] && b[..n][k..] == b[k..][..n - k];
    }
  }

  lemma {:induction false} JoinsSplit(a: seq<string>, b: seq<string>, sep: char)
    requires 2 <= |a| == |b| && sep !in a[|a| - 1] && sep !in b[|b| - 1]
    ensures var n := |a| - 1; Join(a, sep) == Join(b, sep) <==> Join(a[..n], sep) == Join(b[..n], sep) && a[n] == b[n]
  {
    var n := |a| - 1;
    assert a == a[..n] + [a[n]] && b == b[..n] + [b[n]];
    JoinSnoc(a[..n], a[n], sep);
    JoinSnoc(b[..n], b[n], sep);
    if Join(a, sep) == Join(b, sep) {
      SplitAtLast(Join(a[..n], sep), a[n], Join(b[..n], sep), b[n], sep);
    }
  }

  // ---------------------------------------------------------------- counting separators

  function Count(text: string, c: char): nat {
    multiset(text)[c]
  }

  lemma {:induction false} CountAbsent(text: string, c: char)
    ensures Count(text, c) == 0 <==> c !in text
  {
    assert c in multiset(text) <==> c in text;
  }

  lemma {:induction false} CountConcat(a: string, b: string, c: char)
    ensures Count(a + b, c) == Count(a, c) + Count(b, c)
  {
    assert multiset(a + b) == multiset(a) + multiset(b);
  }

  /** Separators inside the parts. */
  function CountInside(parts: seq<string>, sep: char): nat {
    if parts == [] then 0 else Count(parts[0], sep) + CountInside(parts[1..], sep)
  }

  lemma {:induction false} CountInsideZero(parts: seq<string>, sep: char)
    ensures CountInside(parts, sep) == 0 <==> forall i :: 0 <= i < |parts| ==> sep !in parts[i]
  {
    if parts != [] {
      CountAbsent(parts[0], sep);
      CountInsideZero(parts[1..], sep);
      if forall i :: 0 <= i < |parts[1..]| ==> sep !in parts[1..][i] {
        assert forall i :: 1 <= i < |parts| ==> parts[i] == parts[1..][i - 1];
      } else {
        var i :| 0 <= i < |parts[1..]| && sep in parts[1..][i];
        assert sep in parts[i + 1];
      }
    }
  }

  lemma {:induction false} JoinCounts(parts: seq<string>, sep: char)
    requires parts != []
    ensures Count(Join(parts, sep), sep) == CountInside(parts, sep) + |parts| - 1
  {
    if |parts| == 1 {
      assert parts[1..] == [];
    } else {
      JoinCounts(parts[1..], sep);
      CountConcat(parts[0] + [sep], Join(parts[1..], sep), sep);
      CountConcat(parts[0], [sep], sep);
    }
  }

  /** When no part of one text holds the separator, no other parts of that number join to it. */
  lemma {:induction false} JoinOfCleanIsOwn(a: seq<string>, b: seq<string>, sep: char)
    requires |a| == |b| >= 1 && Join(a, sep) == Join(b, sep)
    requires forall i :: 0 <= i < |a| ==> sep !in a[i]
    ensures a == b
  {
    JoinCounts(a, sep);
    JoinCounts(b, sep);
    CountInsideZero(a, sep);
    CountInsideZero(b, sep);
    JoinInjective(a, b, sep);
  }
}
