/** The C string functions that src/websocket.c and src/http.c lean on. A string here is the text
    before its terminator; reading at its length yields NUL. */
module Text {

  const NUL: char := 0 as char

  function CharAt(s: string, i: nat): char {
    if i < |s| then s[i] else NUL
  }

  /** strcspn: how many characters precede the first one in `reject`, or the terminator. */
  function Strcspn(s: string, reject: string): (n: nat)
    ensures n <= |s|
  {
    if s == "" || s[0] in reject || s[0] == NUL then 0 else 1 + Strcspn(s[1..], reject)
  }

  lemma {:induction false} StrcspnStops(s: string, reject: string)
    ensures var n := Strcspn(s, reject);
      && Clean(s[..n], reject)
      && (n < |s| ==> s[n] in reject || s[n] == NUL)
  {
    if !(s == "" || s[0] in reject || s[0] == NUL) {
      StrcspnStops(s[1..], reject);
      var n := Strcspn(s, reject);
      assert forall i :: 1 <= i < n ==> s[..n][i] == s[1..][..n - 1][i - 1];
    }
  }

  /** Text that contains none of the given delimiters, and no terminator. */
  predicate Clean(s: string, delimiters: string) {
    forall i :: 0 <= i < |s| ==> s[i] !in delimiters && s[i] != NUL
  }

  /** Delimiter-free text in front of a delimiter, or of the end, is exactly what strcspn spans. */
  lemma {:induction false} StrcspnSpans(word: string, rest: string, reject: string)
    requires Clean(word, reject)
    requires rest == "" || rest[0] in reject || rest[0] == NUL
    ensures Strcspn(word + rest, reject) == |word|
  {
    var s := word + rest;
    var n := Strcspn(s, reject);
    StrcspnStops(s, reject);
    assert forall i :: 0 <= i < |word| ==> s[i] == word[i];
    assert forall i :: 0 <= i < n ==> s[..n][i] == s[i];
    if rest != "" {
      assert s[|word|] == rest[0];
    }
  }

  /** strcspn in its own terms: nothing before the count is a delimiter or the terminator, and what
      stands at the count, if anything, is one. */
  lemma {:induction false} StrcspnIsFirst(s: string, reject: string)
    ensures var n := Strcspn(s, reject);
      && (forall i :: 0 <= i < n ==> s[i] !in reject && s[i] != '\0')
      && (n < |s| ==> s[n] in reject || s[n] == '\0')
  {
    StrcspnStops(s, reject);
    var n := Strcspn(s, reject);
    assert forall i :: 0 <= i < n ==> s[i] == s[..n][i];
  }

  /** strcspn runs to the end exactly on text without any of the delimiters. */
  lemma {:induction false} StrcspnAll(s: string, reject: string)
    ensures Strcspn(s, reject) == |s| <==> Clean(s, reject)
  {
    StrcspnStops(s, reject);
    assert s[..|s|] == s;
  }

  /** The pointer arithmetic `str + n`, stopped at the end. */
  function Drop(s: string, n: nat): string {
    if n >= |s| then "" else s[n..]
  }

  /** What is left of a text whose length is not passed on: the part before the first NUL. */
  function CString(s: string): string {
    s[..Strcspn(s, "")]
  }

  lemma {:induction false} CStringAppend(a: string, b: string)
    requires Clean(a, "")
    ensures CString(a + b) == a + CString(b)
  {
    if a == "" {
      assert a + b == b;
    } else {
      assert (a + b)[0] == a[0] && (a + b)[1..] == a[1..] + b;
      CStringAppend(a[1..], b);
      assert a == [a[0]] + a[1..];
    }
  }

  lemma {:induction false} CStringWhole(s: string)
    ensures CString(s) == s <==> Clean(s, "")
  {
    StrcspnStops(s, "");
    if Clean(s, "") {
      StrcspnSpans(s, "", "");
      assert s + "" == s;
    }
  }

  // ---- ASCII lower-casing.

  function LowerChar(c: char): char {
    if 'A' <= c <= 'Z' then ((c as int) + 32) as char else c
  }

  function Lower(s: string): (r: string)
    ensures |r| == |s|
  {
    seq(|s|, i requires 0 <= i < |s| => LowerChar(s[i]))
  }

  /** Lower-casing letter by letter: each of A to Z becomes the letter in the same place of a to z, and
      nothing else changes. */
  lemma {:induction false} LowerLetters(s: string, i: nat)
    requires i < |s|
    ensures forall k :: 0 <= k < 26 && s[i] == "ABCDEFGHIJKLMNOPQRSTUVWXYZ"[k] ==>
              Lower(s)[i] == "abcdefghijklmnopqrstuvwxyz"[k]
    ensures s[i] !in "ABCDEFGHIJKLMNOPQRSTUVWXYZ" ==> Lower(s)[i] == s[i]
  {
    var upper, lower := "ABCDEFGHIJKLMNOPQRSTUVWXYZ", "abcdefghijklmnopqrstuvwxyz";
    assert forall k :: 0 <= k < 26 ==> upper[k] as int == 65 + k && lower[k] as int == 97 + k;
    if 'A' <= s[i] <= 'Z' {
      assert upper[s[i] as int - 65] == s[i];
    }
  }

  lemma {:induction false} LowerIdempotent(s: string)
    ensures Lower(Lower(s)) == Lower(s)
  {
    forall i | 0 <= i < |s|
      ensures Lower(Lower(s))[i] == Lower(s)[i]
    {
      assert LowerChar(LowerChar(s[i])) == LowerChar(s[i]);
    }
  }

  // ---- Decimal numbers.

  predicate IsDigit(c: char) {
    '0' <= c <= '9'
  }

  predicate AllDigits(s: string) {
    forall i :: 0 <= i < |s| ==> IsDigit(s[i])
  }

  function DigitOf(n: nat): (c: char)
    requires n < 10
    ensures IsDigit(c)
  {
    ((n as int) + ('0' as int)) as char
  }

  /** printf %d of a natural number. */
  function Decimal(n: nat): (s: string)
    ensures AllDigits(s) && |s| >= 1
  {
    if n < 10 then [DigitOf(n)] else Decimal(n / 10) + [DigitOf(n % 10)]
  }

  function ValueOf(c: char): (n: nat)
    requires IsDigit(c)
    ensures n < 10
  {
    (c as int) - ('0' as int)
  }

  function DigitsValue(s: string): nat
    requires AllDigits(s)
  {
    if s == "" then 0 else DigitsValue(s[..|s| - 1]) * 10 + ValueOf(s[|s| - 1])
  }

  /** The printed digits are those of the decimal notation: the last is the number modulo ten, in
      ASCII, and those before it print the number divided by ten. */
  lemma {:induction false} DecimalDigits(n: nat)
    ensures var s := Decimal(n);
      && s[|s| - 1] as int == 48 + n % 10
      && s[..|s| - 1] == if n < 10 then "" else Decimal(n / 10)
  {}

  /** Printing a number and reading its digits gives the number back. */
  lemma {:induction false} DecimalValue(n: nat)
    ensures DigitsValue(Decimal(n)) == n
  {
    var s := Decimal(n);
    if n < 10 {
      assert s[..0] == "";
    } else {
      DecimalValue(n / 10);
      assert s[..|s| - 1] == Decimal(n / 10);
    }
  }

  lemma {:induction false} DecimalLength(n: nat)
    ensures |Decimal(n)| <= 5 <==> n < 100000
  {
    DecimalLonger(n);
    DecimalLonger(n / 10);
    DecimalLonger(n / 10 / 10);
    DecimalLonger(n / 10 / 10 / 10);
    DecimalLonger(n / 10 / 10 / 10 / 10);
  }

  lemma {:induction false} DecimalLonger(n: nat)
    ensures if n < 10 then |Decimal(n)| == 1 else |Decimal(n)| == |Decimal(n / 10)| + 1
  {}

  /** The white space that atoi skips. */
  predicate IsSpace(c: char) {
    c == ' ' || 9 <= c as int <= 13
  }

  function LeadingDigits(s: string): (n: nat)
    ensures n <= |s| && AllDigits(s[..n])
  {
    if s == "" || !IsDigit(s[0]) then 0
    else
      var n := LeadingDigits(s[1..]);
      assert forall i :: 1 <= i < n + 1 ==> s[i] == s[1..][..n][i - 1];
      n + 1
  }

  /** atoi: white space, an optional sign, then the leading digits. */
  function Atoi(s: string): int {
    if s == "" then 0
    else if IsSpace(s[0]) then Atoi(s[1..])
    else if s[0] == '-' then -(DigitsValue(s[1..][..LeadingDigits(s[1..])]) as int)
    else if s[0] == '+' then DigitsValue(s[1..][..LeadingDigits(s[1..])])
    else DigitsValue(s[..LeadingDigits(s)])
  }

  lemma {:induction false} AllLeading(s: string)
    requires AllDigits(s)
    ensures LeadingDigits(s) == |s|
  {
    if s != "" {
      AllLeading(s[1..]);
    }
  }

  lemma {:induction false} AtoiOfDigits(s: string)
    requires AllDigits(s)
    ensures Atoi(s) == DigitsValue(s)
  {
    AllLeading(s);
    assert s[..|s|] == s;
  }

  /** Text that atoi may skip, and a sign it may read. */
  predicate IsWhite(s: string) {
    forall i :: 0 <= i < |s| ==> s[i] as int in [9, 10, 11, 12, 13, 32]
  }

  /** atoi in its own terms: of white space, a sign, digits and anything that is not a digit, it returns
      the digits' value with that sign. Without sign and digits the rest must not be what it skips. */
  lemma {:induction false} AtoiReads(white: string, sign: string, digits: string, rest: string)
    requires IsWhite(white) && sign in ["", "+", "-"] && AllDigits(digits)
    requires rest != "" ==> !('0' <= rest[0] <= '9')
    requires sign == "" && digits == "" && rest != "" ==> !IsWhite(rest[..1]) && rest[0] != '+' && rest[0] != '-'
    ensures Atoi(white + (sign + (digits + rest))) ==
      if sign == "-" then -(DigitsValue(digits) as int) else DigitsValue(digits)
  {
    var s := sign + (digits + rest);
    if white != "" {
      var t := white + s;
      assert t[0] == white[0] && t[1..] == white[1..] + s;
      AtoiReads(white[1..], sign, digits, rest);
    } else {
      assert white + s == s;
      LeadingAre(digits, rest);
      if sign == "" {
        assert s == digits + rest;
        NoSignAtoi(digits, rest);
      } else {
        assert s[0] == sign[0] && s[1..] == digits + rest;
      }
    }
  }

  lemma {:induction false} LeadingAre(digits: string, rest: string)
    requires AllDigits(digits) && (rest != "" ==> !('0' <= rest[0] <= '9'))
    ensures LeadingDigits(digits + rest) == |digits| && (digits + rest)[..|digits|] == digits
  {
    if digits != "" {
      assert (digits + rest)[0] == digits[0] && (digits + rest)[1..] == digits[1..] + rest;
      LeadingAre(digits[1..], rest);
    } else {
      assert digits + rest == rest;
    }
  }

  lemma {:induction false} NoSignAtoi(digits: string, rest: string)
    requires AllDigits(digits) && (rest != "" ==> !('0' <= rest[0] <= '9'))
    requires digits == "" && rest != "" ==> !IsWhite(rest[..1]) && rest[0] != '+' && rest[0] != '-'
    ensures Atoi(digits + rest) == DigitsValue(digits)
  {
    var s := digits + rest;
    LeadingAre(digits, rest);
    if s != "" {
      assert s[0] == if digits != "" then digits[0] else rest[0];
      assert digits == "" ==> rest[..1][0] == rest[0];
    }
  }
}
