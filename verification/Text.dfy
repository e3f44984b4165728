/** Text operations shared by the Go server and the TypeScript client: the order Go's
    `sort.Strings` uses, whitespace trimming and decimal printing. */
module Text {

  // ---- lexicographic order ----

  /** Code-point order, which is also the order of the UTF-8 encodings (see `Signing`). */
  predicate Less(a: string, b: string) {
    b != "" && (a == "" || a[0] < b[0] || (a[0] == b[0] && Less(a[1..], b[1..])))
  }

  lemma {:induction false} LessIrreflexive(a: string)
    ensures !Less(a, a)
  {
    if a != "" { LessIrreflexive(a[1..]); }
  }

  lemma {:induction false} LessTotal(a: string, b: string)
    ensures Less(a, b) || Less(b, a) || a == b
  {
    if a != "" && b != "" && a[0] == b[0] {
      LessTotal(a[1..], b[1..]);
      assert a == [a[0]] + a[1..] && b == [b[0]] + b[1..];
    }
  }

  lemma {:induction false} LessTransitive(a: string, b: string, c: string)
    requires Less(a, b) && Less(b, c)
    ensures Less(a, c)
  {
    if a != "" && a[0] == b[0] && b[0] == c[0] {
      LessTransitive(a[1..], b[1..], c[1..]);
    }
  }

  // ---- whitespace ----

  /** Go's `unicode.IsSpace`. */
  predicate IsSpace(c: char) {
    '\t' <= c <= '\r' || c == ' ' || c == '\U{85}' || c == '\U{A0}' || c == '\U{1680}'
    || '\U{2000}' <= c <= '\U{200A}' || c == '\U{2028}' || c == '\U{2029}' || c == '\U{202F}'
    || c == '\U{205F}' || c == '\U{3000}'
  }

  function TrimLeft(s: string, space: char -> bool): string {
    if s != "" && space(s[0]) then TrimLeft(s[1..], space) else s
  }

  function TrimRight(s: string, space: char -> bool): string {
    if s != "" && space(s[|s| - 1]) then TrimRight(s[..|s| - 1], space) else s
  }

  function Trim(s: string, space: char -> bool): string {
    TrimRight(TrimLeft(s, space), space)
  }

  /** Go's `strings.TrimSpace`. */
  function TrimSpace(s: string): string {
    Trim(s, IsSpace)
  }

  predicate Blank(s: string) {
    TrimSpace(s) == ""
  }

  predicate Trimmed(s: string, space: char -> bool) {
    s == "" || (!space(s[0]) && !space(s[|s| - 1]))
  }

  lemma {:induction false} TrimLeftResult(s: string, space: char -> bool)
    ensures var r := TrimLeft(s, space);
      |r| <= |s| && s[|s| - |r|..] == r && (r != "" ==> !space(r[0]))
  {
    if s != "" && space(s[0]) {
      TrimLeftResult(s[1..], space);
      var r := TrimLeft(s[1..], space);
      assert s[|s| - |r|..] == s[1..][|s[1..]| - |r|..];
    }
  }

  lemma {:induction false} TrimRightResult(s: string, space: char -> bool)
    ensures var r := TrimRight(s, space);
      |r| <= |s| && s[..|r|] == r && (r != "" ==> !space(r[|r| - 1]))
      && (forall k | |r| <= k < |s| :: space(s[k]))
  {
    if s != "" && space(s[|s| - 1]) {
      var t := s[..|s| - 1];
      TrimRightResult(t, space);
      var r := TrimRight(t, space);
      assert s[..|r|] == t[..|r|];
      forall k | |r| <= k < |s| ensures space(s[k]) {
        if k < |t| { assert s[k] == t[k]; }
      }
    }
  }

  /** Trimming yields a trimmed string and leaves a trimmed one alone. */
  lemma TrimResult(s: string, space: char -> bool)
    ensures Trimmed(Trim(s, space), space)
    ensures Trimmed(s, space) ==> Trim(s, space) == s
  {
    TrimLeftResult(s, space);
    TrimRightResult(TrimLeft(s, space), space);
  }

  lemma TrimTwice(s: string)
    ensures TrimSpace(TrimSpace(s)) == TrimSpace(s)
  {
    TrimResult(s, IsSpace);
    TrimResult(TrimSpace(s), IsSpace);
  }

  // ---- decimal integers ----

  function Digit(n: nat): char
    requires n < 10
  {
    '0' + n as char
  }

  predicate IsDigit(c: char) {
    '0' <= c <= '9'
  }

  function Digits(n: nat): string {
    if n < 10 then [Digit(n)] else Digits(n / 10) + [Digit(n % 10)]
  }

  /** `strconv.FormatInt(n, 10)`, `%d` and JavaScript's `String(n)` for an integer. */
  function Decimal(n: int): string {
    if n < 0 then "-" + Digits(-n) else Digits(n)
  }

  function DigitsValue(s: string): int
    requires forall c | c in s :: IsDigit(c)
  {
    if s == "" then 0
    else 10 * DigitsValue(s[..|s| - 1]) + (s[|s| - 1] as int - '0' as int)
  }

  /** The integer a decimal string denotes, if it is one. */
  function DecimalValue(s: string): (n: int) {
    if s != "" && s[0] == '-' && (forall c | c in s[1..] :: IsDigit(c)) then -DigitsValue(s[1..])
    else if forall c | c in s :: IsDigit(c) then DigitsValue(s)
    else 0
  }

  lemma {:induction false} DigitsRoundTrip(n: nat)
    ensures Digits(n) != "" && (forall c | c in Digits(n) :: IsDigit(c))
    ensures DigitsValue(Digits(n)) == n
  {
    if n >= 10 {
      DigitsRoundTrip(n / 10);
      var s := Digits(n);
      assert s[..|s| - 1] == Digits(n / 10) && s[|s| - 1] == Digit(n % 10);
    } else {
      assert Digits(n)[..0] == "";
    }
  }

  lemma DecimalRoundTrip(n: int)
    ensures DecimalValue(Decimal(n)) == n
    ensures Decimal(n) != ""
    ensures forall c | c in Decimal(n) :: IsDigit(c) || c == '-'
  {
    DigitsRoundTrip(if n < 0 then -n else n);
    if n < 0 {
      assert Decimal(n)[1..] == Digits(-n);
    } else {
      assert Decimal(n)[0] in Digits(n);
    }
  }

  // ---- splitting at a separator ----

  lemma SeparatorAt(x: string, y: string, c: char)
    ensures var s := x + [c] + y;
      && s[|x|] == c && s[..|x|] == x && s[|x| + 1..] == y
      && (c !in x ==> forall i | 0 <= i < |x| :: s[i] != c)
      && (c !in y ==> forall i | |x| < i < |s| :: s[i] != c)
  {
    var s := x + [c] + y;
    assert forall i | 0 <= i < |x| :: s[i] == x[i] && x[i] in x;
    assert forall i | |x| < i < |s| :: s[i] == y[i - |x| - 1] && y[i - |x| - 1] in y;
  }

  lemma SplitAtFirst(x: string, y: string, x': string, y': string, c: char)
    requires c !in x && c !in x' && x + [c] + y == x' + [c] + y'
    ensures x == x' && y == y'
  {
    SeparatorAt(x, y, c);
    SeparatorAt(x', y', c);
    assert |x| == |x'|;
  }

  lemma SplitAtLast(x: string, y: string, x': string, y': string, c: char)
    requires c !in y && c !in y' && x + [c] + y == x' + [c] + y'
    ensures x == x' && y == y'
  {
    SeparatorAt(x, y, c);
    SeparatorAt(x', y', c);
    assert |x| == |x'|;
  }

  // ---- counting a character ----

  function Count(s: string, c: char): nat {
    if s == "" then 0 else Count(s[..|s| - 1], c) + if s[|s| - 1] == c then 1 else 0
  }

  lemma {:induction false} CountConcat(s: string, t: string, c: char)
    ensures Count(s + t, c) == Count(s, c) + Count(t, c)
  {
    if t == "" {
      assert s + t == s;
    } else {
      assert (s + t)[..|s + t| - 1] == s + t[..|t| - 1];
      CountConcat(s, t[..|t| - 1], c);
    }
  }

  lemma {:induction false} CountNone(s: string, c: char)
    ensures Count(s, c) == 0 <==> c !in s
  {
    if s != "" {
      CountNone(s[..|s| - 1], c);
      assert s == s[..|s| - 1] + [s[|s| - 1]];
    }
  }

  lemma {:induction false} CountPrefix(x: string, y: string, x': string, y': string, c: char)
    requires x + [c] + y == x' + [c] + y' && |x| < |x'|
    ensures Count(x, c) < Count(x', c)
  {
    var s := x + [c] + y;
    assert s[..|x'|] == x' && s[..|x|] == x && s[|x|] == c;
    var middle := x'[|x|..];
    assert x' == x + middle && middle[0] == c;
    CountConcat(x, middle, c);
    CountNone(middle, c);
  }

  /** A separator can be found again if it is known how many of its kind precede it. */
  lemma {:induction false} SplitAtCount(x: string, y: string, x': string, y': string, c: char)
    requires Count(x, c) == Count(x', c) && x + [c] + y == x' + [c] + y'
    ensures x == x' && y == y'
  {
    if |x| < |x'| {
      CountPrefix(x, y, x', y', c);
    } else if |x'| < |x| {
      CountPrefix(x', y', x, y, c);
    }
    SeparatorAt(x, y, c);
    SeparatorAt(x', y', c);
  }

  // ---- search and replace ----

  predicate OccursAt(s: string, part: string, i: int) {
    0 <= i && i + |part| <= |s| && s[i..i + |part|] == part
  }

  lemma {:induction false} OccursLater(s: string, part: string)
    requires s != ""
    ensures forall j | j >= 1 :: OccursAt(s, part, j) == OccursAt(s[1..], part, j - 1)
  {
    forall j | j >= 1 ensures OccursAt(s, part, j) == OccursAt(s[1..], part, j - 1) {
      if j + |part| <= |s| {
        var x, y := s[j..j + |part|], s[1..][j - 1..j - 1 + |part|];
        assert forall k | 0 <= k < |part| :: x[k] == s[j + k] && y[k] == s[j + k];
        assert x == y;
      }
    }
  }

  /** Where `part` first occurs, or -1 (Go's `strings.Index`). */
  function IndexOf(s: string, part: string): (i: int)
    ensures i >= 0 ==> OccursAt(s, part, i) && forall j | 0 <= j < i :: !OccursAt(s, part, j)
    ensures i < 0 ==> i == -1 && forall j :: !OccursAt(s, part, j)
  {
    if OccursAt(s, part, 0) then 0 else if s == "" then -1 else
      var i := IndexOf(s[1..], part);
      OccursLater(s, part);
      if i < 0 then -1 else i + 1
  }

  predicate Contains(s: string, part: string) {
    IndexOf(s, part) >= 0
  }

  /** `strings.Replace(s, part, other, 1)` */
  function ReplaceFirst(s: string, part: string, other: string): string {
    var i := IndexOf(s, part);
    if i < 0 then s else s[..i] + other + s[i + |part|..]
  }

  /** What is put in can be found. */
  lemma {:induction false} FoundAfterReplace(s: string, part: string, other: string, x: string, y: string)
    requires Contains(s, part) && other == x + y
    ensures Contains(ReplaceFirst(s, part, other), x) && Contains(ReplaceFirst(s, part, other), y)
    ensures |ReplaceFirst(s, part, other)| == |s| + |other| - |part|
  {
    var i := IndexOf(s, part);
    var r := ReplaceFirst(s, part, other);
    assert r == s[..i] + x + y + s[i + |part|..];
    assert OccursAt(r, x, i) && OccursAt(r, y, i + |x|);
  }

  /** Exactly the first occurrence is replaced. */
  lemma {:induction false} ReplacedExactly(s: string, part: string, other: string, i: int)
    requires OccursAt(s, part, i) && forall j | 0 <= j < i :: !OccursAt(s, part, j)
    ensures ReplaceFirst(s, part, other) == s[..i] + other + s[i + |part|..]
  {
  }

  // ---- what the operations are ----

  /** The texts agree up to place `k`, where the first ends or has the smaller character. */
  predicate LessAt(a: string, b: string, k: int) {
    0 <= k <= |a| && k < |b| && a[..k] == b[..k] && (k == |a| || a[k] < b[k])
  }

  lemma {:induction false} LessAtNext(a: string, b: string, k: int)
    requires a != "" && b != "" && a[0] == b[0]
    ensures LessAt(a, b, k + 1) <==> LessAt(a[1..], b[1..], k)
    ensures !LessAt(a, b, 0)
  {
    if 0 <= k < |a| && k < |b| - 1 {
      assert a[..k + 1] == [a[0]] + a[1..][..k] && b[..k + 1] == [b[0]] + b[1..][..k];
    }
  }

  lemma {:induction false} LessAtHead(a: string, b: string, k: int)
    ensures LessAt(a, b, k) && k > 0 ==> a != "" && b != "" && a[0] == b[0]
  {
    if LessAt(a, b, k) && k > 0 {
      assert a[..k][0] == b[..k][0];
    }
  }

  /** The order of texts, by the first place where they differ. */
  lemma {:induction false} LessExactly(a: string, b: string)
    ensures Less(a, b) <==> exists k :: LessAt(a, b, k)
  {
    if a != "" && b != "" && a[0] == b[0] {
      LessExactly(a[1..], b[1..]);
      forall k ensures LessAt(a, b, k + 1) <==> LessAt(a[1..], b[1..], k) {
        LessAtNext(a, b, k);
      }
      if k :| LessAt(a, b, k) {
        LessAtNext(a, b, k - 1);
        assert LessAt(a[1..], b[1..], k - 1);
      }
      if k :| LessAt(a[1..], b[1..], k) {
        assert LessAt(a, b, k + 1);
      }
    } else if b != "" {
      assert LessAt(a, b, 0) <==> a == "" || a[0] < b[0];
      forall k ensures LessAt(a, b, k) && k > 0 ==> a != "" && a[0] == b[0] {
        LessAtHead(a, b, k);
      }
    }
  }

  /** The part from `i` to `j` with nothing but space around it, and none at its own ends. */
  predicate SpaceAround(s: string, i: int, j: int) {
    && 0 <= i <= j <= |s| && (forall k | 0 <= k < i :: IsSpace(s[k])) && (forall k | j <= k < |s| :: IsSpace(s[k]))
    && (i < j ==> !IsSpace(s[i]) && !IsSpace(s[j - 1]))
  }

  lemma {:induction false} TrimLeftSpace(s: string)
    ensures |TrimLeft(s, IsSpace)| <= |s| && forall k | 0 <= k < |s| - |TrimLeft(s, IsSpace)| :: IsSpace(s[k])
  {
    hide IsSpace;
    if s != "" && IsSpace(s[0]) {
      TrimLeftSpace(s[1..]);
    }
  }

  lemma {:induction false} TrimPlaces(s: string) returns (i: int, j: int)
    ensures SpaceAround(s, i, j) && TrimSpace(s) == s[i..j]
  {
    hide IsSpace;
    var t := TrimLeft(s, IsSpace);
    TrimLeftSpace(s);
    TrimLeftResult(s, IsSpace);
    i := |s| - |t|;
    assert t == s[i..];
    var r := TrimRight(t, IsSpace);
    TrimRightResult(t, IsSpace);
    j := i + |r|;
    hide TrimLeft, TrimRight;
    assert r == t[..|r|] == s[i..j];
    forall k | j <= k < |s| ensures IsSpace(s[k]) {
      assert s[k] == t[k - i];
    }
  }

  /** Trimming takes off exactly the space at both ends. */
  lemma {:induction false} TrimExactly(s: string)
    ensures exists i, j | SpaceAround(s, i, j) :: TrimSpace(s) == s[i..j]
  {
    hide TrimSpace, SpaceAround;
    var i, j := TrimPlaces(s);
    assert SpaceAround(s, i, j);
  }

  /** Blank text is nothing but space. */
  lemma {:induction false} BlankExactly(s: string)
    ensures Blank(s) <==> forall k | 0 <= k < |s| :: IsSpace(s[k])
  {
    hide IsSpace, TrimSpace;
    var i, j := TrimPlaces(s);
  }

  /** Decimals have no leading zero. */
  lemma {:induction false} NoLeadingZero(n: nat)
    ensures Decimal(n) != "" && (Decimal(n)[0] == '0' <==> n == 0) && (n == 0 ==> Decimal(n) == "0")
  {
    if n >= 10 { NoLeadingZero(n / 10); }
  }
}
