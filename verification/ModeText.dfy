/**
 The text of an output's mode in the KMS configuration: how it is saved
 (plugins/egldeviceintegration/kms/eglfskmsintegration.cpp) and read back
 (plugins/egldeviceintegration/kms/eglfskmsdevice.cpp).
 */
module ModeText {
  import opened Sequences

  predicate IsDigit(c: char) { '0' <= c <= '9' }

  function Digit(d: nat): (c: char)
    requires d < 10
    ensures IsDigit(c) && DigitValue(c) == d
  {
    "0123456789"[d]
  }

  function DigitValue(c: char): nat
    requires IsDigit(c)
  {
    c as int - '0' as int
  }

  /** QString::number for a size. */
  function Decimal(n: nat): (s: string)
    ensures s != "" && forall i :: 0 <= i < |s| ==> IsDigit(s[i])
  {
    if n < 10 then [Digit(n)] else Decimal(n / 10) + [Digit(n % 10)]
  }

  /** The value of the digits s[i..n]. */
  function Value(s: string, i: nat, n: nat): nat
    requires i <= n <= |s| && forall k :: i <= k < n ==> IsDigit(s[k])
    decreases n
  {
    if i == n then 0 else 10 * Value(s, i, n - 1) + DigitValue(s[n - 1])
  }

  /** The characters d stand in s from position i on. */
  predicate At(s: string, i: nat, d: string) {
    i + |d| <= |s| && forall k :: 0 <= k < |d| ==> s[i + k] == d[k]
  }

  lemma {:induction false} ValueOfDecimal(s: string, i: nat, n: nat)
    requires At(s, i, Decimal(n))
    ensures forall k :: i <= k < i + |Decimal(n)| ==> IsDigit(s[k])
    ensures Value(s, i, i + |Decimal(n)|) == n
    decreases n
  {
    var d := Decimal(n);
    assert forall k :: i <= k < i + |d| ==> s[k] == d[k - i];
    assert s[i + |d| - 1] == d[|d| - 1];
    if n < 10 {
      assert Value(s, i, i) == 0;
    } else {
      ValueOfDecimal(s, i, n / 10);
    }
  }

  // ----- sscanf -----

  predicate IsSpace(c: char) { c == ' ' || '\t' <= c <= '\r' }

  /** The first position from i on that is not white space. */
  function SpacesEnd(s: string, i: nat): (n: nat)
    requires i <= |s|
    ensures i <= n <= |s|
    decreases |s| - i
  {
    if i < |s| && IsSpace(s[i]) then SpacesEnd(s, i + 1) else i
  }

  /** The first position from i on that is not a digit. */
  function DigitsEnd(s: string, i: nat): (n: nat)
    requires i <= |s|
    ensures i <= n <= |s| && forall k :: i <= k < n ==> IsDigit(s[k])
    ensures n < |s| ==> !IsDigit(s[n])
    decreases |s| - i
  {
    if i < |s| && IsDigit(s[i]) then DigitsEnd(s, i + 1) else i
  }

  /** `next`: the position after what was matched. */
  datatype Scanned = Matched(value: int, next: nat) | Mismatch

  /** %d: white space, an optional sign, and as many digits as there are. */
  function ScanInt(s: string, i: nat): (r: Scanned)
    requires i <= |s|
    ensures r.Matched? ==> r.next <= |s|
  {
    var j := SpacesEnd(s, i);
    var signed := j < |s| && (s[j] == '-' || s[j] == '+');
    var start := if signed then j + 1 else j;
    var end := DigitsEnd(s, start);
    if end == start then Mismatch
    else Matched(if signed && s[j] == '-' then -(Value(s, start, end) as int) else Value(s, start, end), end)
  }

  /** The format "%dx%d" with both conversions made; what follows is ignored. */
  function ScanSize(s: string): Option<(int, int)> {
    match ScanInt(s, 0)
    case Mismatch => None
    case Matched(w, i) =>
      if i == |s| || s[i] != 'x' then None
      else match ScanInt(s, i + 1)
        case Mismatch => None
        case Matched(h, _) => Some((w, h))
  }

  /** White space from i to a, perhaps a sign before b, and digits from there as far as they go, to j. */
  ghost predicate Spelled(s: string, i: nat, a: nat, b: nat, v: int, j: nat) {
    && i <= a <= b < j <= |s|
    && (forall k :: i <= k < a ==> IsSpace(s[k])) && (b == a || (b == a + 1 && s[a] in {'+', '-'}))
    && (forall k :: b <= k < j ==> IsDigit(s[k])) && (j < |s| ==> !IsDigit(s[j]))
    && v == (if b > a && s[a] == '-' then -(Value(s, b, j) as int) else Value(s, b, j))
  }

  /** The number v stands in s from i to j. */
  ghost predicate IntAt(s: string, i: nat, v: int, j: nat) {
    exists a: nat, b: nat :: Spelled(s, i, a, b, v, j)
  }

  lemma {:induction false} SpacesEndAt(s: string, i: nat, n: nat)
    requires i <= n < |s| && !IsSpace(s[n]) && forall k :: i <= k < n ==> IsSpace(s[k])
    ensures SpacesEnd(s, i) == n
    decreases n - i
  {
    if i < n {
      SpacesEndAt(s, i + 1, n);
    }
  }

  lemma {:induction false} SpacesSkipped(s: string, i: nat)
    requires i <= |s|
    ensures forall k :: i <= k < SpacesEnd(s, i) ==> IsSpace(s[k])
    decreases |s| - i
  {
    if i < |s| && IsSpace(s[i]) {
      SpacesSkipped(s, i + 1);
    }
  }

  lemma SpelledIsRead(s: string, i: nat, a: nat, b: nat, v: int, j: nat)
    requires Spelled(s, i, a, b, v, j)
    ensures ScanInt(s, i) == Matched(v, j)
  {
    assert IsDigit(s[b]);
    SpacesEndAt(s, i, a);
    DigitsEndAt(s, b, j);
  }

  lemma ReadIsSpelled(s: string, i: nat)
    requires i <= |s| && ScanInt(s, i).Matched?
    ensures IntAt(s, i, ScanInt(s, i).value, ScanInt(s, i).next)
  {
    var a := SpacesEnd(s, i);
    var b := if s[a] == '-' || s[a] == '+' then a + 1 else a;
    SpacesSkipped(s, i);
    assert Spelled(s, i, a, b, ScanInt(s, i).value, ScanInt(s, i).next);
  }

  /** What the number format reads, for every text. */
  lemma ScanIntIff(s: string, i: nat, v: int, j: nat)
    requires i <= |s|
    ensures ScanInt(s, i) == Matched(v, j) <==> IntAt(s, i, v, j)
  {
    if ScanInt(s, i) == Matched(v, j) {
      ReadIsSpelled(s, i);
    } else if IntAt(s, i, v, j) {
      var a: nat, b: nat :| Spelled(s, i, a, b, v, j);
      SpelledIsRead(s, i, a, b, v, j);
    }
  }

  /** The text starts with a size: a number that ends at x, the letter x, and a number that starts at i. */
  ghost predicate SizeAt(s: string, w: int, h: int) {
    exists x: nat, i: nat, j: nat :: x < |s| && s[x] == 'x' && i == x + 1 && IntAt(s, 0, w, x) && IntAt(s, i, h, j)
  }

  lemma NumbersAreRead(s: string, w: int, x: nat, h: int, j: nat)
    requires x < |s| && s[x] == 'x' && ScanInt(s, 0) == Matched(w, x) && ScanInt(s, x + 1) == Matched(h, j)
    ensures ScanSize(s) == Some((w, h))
  {
  }

  /** Which texts are read as a size, and as which. */
  lemma ScanSizeIff(s: string, w: int, h: int)
    ensures ScanSize(s) == Some((w, h)) <==> SizeAt(s, w, h)
  {
    if ScanSize(s) == Some((w, h)) {
      var x := ScanInt(s, 0).next;
      ScanIntIff(s, 0, w, x);
      ScanIntIff(s, x + 1, h, ScanInt(s, x + 1).next);
    } else if SizeAt(s, w, h) {
      var x: nat, i: nat, j: nat :| x < |s| && s[x] == 'x' && i == x + 1 && IntAt(s, 0, w, x) && IntAt(s, i, h, j);
      ScanIntIff(s, 0, w, x);
      ScanIntIff(s, i, h, j);
      NumbersAreRead(s, w, x, h, j);
    }
  }

  function SizeText(w: nat, h: nat): string {
    Decimal(w) + "x" + Decimal(h)
  }

  /** Sizes are written as usual, the highest digit first. */
  lemma WrittenSize()
    ensures SizeText(1920, 1080) == "1920x1080"
  {
    assert Decimal(19) == "19" && Decimal(192) == "192" && Decimal(10) == "10" && Decimal(108) == "108";
  }

  lemma {:induction false} DigitsEndAt(s: string, i: nat, n: nat)
    requires i <= n <= |s| && forall k :: i <= k < n ==> IsDigit(s[k])
    requires n == |s| || !IsDigit(s[n])
    ensures DigitsEnd(s, i) == n
    decreases n - i
  {
    if i == n {
    } else {
      DigitsEndAt(s, i + 1, n);
    }
  }

  /** A printed number is read back, and reading stops right after it. */
  lemma ScanDecimal(s: string, i: nat, n: nat)
    requires At(s, i, Decimal(n)) && (i + |Decimal(n)| == |s| || !IsDigit(s[i + |Decimal(n)|]))
    ensures ScanInt(s, i) == Matched(n, i + |Decimal(n)|)
  {
    var end := i + |Decimal(n)|;
    ValueOfDecimal(s, i, n);
    assert IsDigit(s[i]);
    DigitsEndAt(s, i, end);
  }

  function Lower(s: string): string {
    seq(|s|, i requires 0 <= i < |s| => if 'A' <= s[i] <= 'Z' then (s[i] as int + 32) as char else s[i])
  }

  lemma SizeTextIsLower(w: nat, h: nat)
    ensures Lower(SizeText(w, h)) == SizeText(w, h)
  {
    var s := SizeText(w, h);
    forall i | 0 <= i < |s| ensures !('A' <= s[i] <= 'Z') {
    }
  }

  lemma PartsScan(s: string, w: nat, h: nat, x: nat)
    requires x == |Decimal(w)| < |s| == x + 1 + |Decimal(h)|
    requires At(s, 0, Decimal(w)) && s[x] == 'x' && At(s, x + 1, Decimal(h))
    ensures ScanSize(s) == Some((w, h))
  {
    ScanDecimal(s, 0, w);
    ScanDecimal(s, x + 1, h);
  }

  lemma SizeTextParts(w: nat, h: nat)
    ensures var s, x := SizeText(w, h), |Decimal(w)|;
            |s| == x + 1 + |Decimal(h)| && At(s, 0, Decimal(w)) && s[x] == 'x' && At(s, x + 1, Decimal(h))
  {
  }

  /** A saved size reads back as the same size, for every size, and is not one of the words. */
  lemma SizeTextRoundTrip(w: nat, h: nat)
    ensures Lower(SizeText(w, h)) == SizeText(w, h)
    ensures ScanSize(SizeText(w, h)) == Some((w, h))
    ensures IsDigit(SizeText(w, h)[0])
  {
    SizeTextIsLower(w, h);
    SizeTextParts(w, h);
    PartsScan(SizeText(w, h), w, h, |Decimal(w)|);
  }
}
