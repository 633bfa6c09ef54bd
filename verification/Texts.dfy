/** The string operations the address parser is made of, and how they undo each other. */
module Texts {

  function IndexOf(s: string, c: char): (i: nat)
    ensures i <= |s| && (i < |s| ==> s[i] == c)
    ensures forall k :: 0 <= k < i ==> s[k] != c
  {
    if s == "" || s[0] == c then 0 else 1 + IndexOf(s[1..], c)
  }

  /** The index after the last `c`, or 0: `lastIndexOf(c) + 1`. */
  function AfterLast(s: string, c: char): (i: nat)
    ensures i <= |s| && (i > 0 ==> s[i - 1] == c)
    ensures forall k :: i <= k < |s| ==> s[k] != c
  {
    if s == "" then 0 else if s[|s| - 1] == c then |s| else AfterLast(s[..|s| - 1], c)
  }

  function Split(s: string, c: char): (parts: seq<string>)
    ensures parts != []
    decreases |s|
  {
    var i := IndexOf(s, c);
    if i == |s| then [s] else [s[..i]] + Split(s[i + 1..], c)
  }

  function Join(parts: seq<string>, c: char): string {
    if parts == [] then ""
    else if |parts| == 1 then parts[0]
    else parts[0] + [c] + Join(parts[1..], c)
  }

  lemma SplitAt(a: string, c: char, b: string)
    requires c !in a
    ensures Split(a + [c] + b, c) == [a] + Split(b, c)
  {
    var s := a + [c] + b;
    assert s[|a|] == c && forall k :: 0 <= k < |a| ==> s[k] == a[k];
    assert IndexOf(s, c) == |a|;
    assert s[..|a|] == a && s[|a| + 1..] == b;
  }

  lemma {:induction false} SplitUndoesJoin(parts: seq<string>, c: char)
    requires parts != [] && forall i :: 0 <= i < |parts| ==> c !in parts[i]
    ensures Split(Join(parts, c), c) == parts
  {
    if |parts| > 1 {
      SplitAt(parts[0], c, Join(parts[1..], c));
      SplitUndoesJoin(parts[1..], c);
    }
  }

  lemma {:induction false} JoinMore(parts: seq<string>, more: seq<string>, c: char)
    requires parts != [] && more != []
    ensures Join(parts + more, c) == Join(parts, c) + [c] + Join(more, c)
  {
    if |parts| == 1 {
      assert (parts + more)[1..] == more;
    } else {
      assert (parts + more)[1..] == parts[1..] + more;
      JoinMore(parts[1..], more, c);
    }
  }

  lemma {:induction false} SplitAppends(a: string, b: string, c: char)
    ensures Split(a + [c] + b, c) == Split(a, c) + Split(b, c)
    decreases |a|
  {
    var i := IndexOf(a, c);
    if i == |a| {
      SplitAt(a, c, b);
    } else {
      hide Split;
      var first, rest := a[..i], a[i + 1..];
      assert a == first + [c] + rest;
      assert a + [c] + b == first + [c] + (rest + [c] + b);
      SplitAt(first, c, rest + [c] + b);
      SplitAt(first, c, rest);
      SplitAppends(rest, b, c);
    }
  }

  // ----- Containment

  predicate Contains(s: string, word: string) {
    word <= s || (s != "" && Contains(s[1..], word))
  }

  lemma {:induction false} ContainsInside(a: string, word: string, b: string)
    ensures Contains(a + word + b, word)
    decreases |a|
  {
    if a == "" {
      assert word <= a + word + b;
    } else {
      assert (a + word + b)[1..] == a[1..] + word + b;
      ContainsInside(a[1..], word, b);
    }
  }

  lemma {:induction false} ContainsSplits(s: string, word: string) returns (a: string, b: string)
    requires Contains(s, word)
    ensures s == a + word + b
  {
    if word <= s {
      a, b := "", s[|word|..];
    } else {
      a, b := ContainsSplits(s[1..], word);
      a := [s[0]] + a;
    }
  }

  // ----- Letters

  const LOWER_LETTERS := "abcdefghijklmnopqrstuvwxyz"
  const UPPER_LETTERS := "ABCDEFGHIJKLMNOPQRSTUVWXYZ"
  const DIGITS := "0123456789"

  lemma LetterAt(i: nat)
    requires i < 26
    ensures LOWER_LETTERS[i] == 'a' + i as char && UPPER_LETTERS[i] == 'A' + i as char
  {
  }

  lemma SmallLetterIs(c: char)
    ensures c in LOWER_LETTERS <==> 'a' <= c <= 'z'
  {
    if 'a' <= c <= 'z' {
      LetterAt((c - 'a') as nat);
    }
    if i: nat :| i < 26 && LOWER_LETTERS[i] == c {
      LetterAt(i);
    }
  }

  lemma CapitalIs(c: char)
    ensures c in UPPER_LETTERS <==> 'A' <= c <= 'Z'
  {
    if 'A' <= c <= 'Z' {
      LetterAt((c - 'A') as nat);
    }
    if i: nat :| i < 26 && UPPER_LETTERS[i] == c {
      LetterAt(i);
    }
  }

  lemma DigitIs(c: char)
    ensures c in DIGITS <==> '0' <= c <= '9'
  {
    if '0' <= c <= '9' {
      assert DIGITS[(c - '0') as nat] == c;
    }
  }

  /** Each capital has its own small letter; nothing else changes. */
  lemma LowerIsLetterByLetter(c: char)
    ensures forall i: nat :: i < 26 && c == UPPER_LETTERS[i] ==> LowerChar(c) == LOWER_LETTERS[i]
    ensures c !in UPPER_LETTERS ==> LowerChar(c) == c
  {
    CapitalIs(c);
    forall i: nat | i < 26 && c == UPPER_LETTERS[i]
      ensures LowerChar(c) == LOWER_LETTERS[i]
    {
      LetterAt(i);
    }
  }

  // ----- Digits

  function LowerChar(c: char): char {
    if 'A' <= c <= 'Z' then c - 'A' + 'a' else c
  }

  function Lower(s: string): (r: string)
    ensures |r| == |s| && forall i :: 0 <= i < |s| ==> r[i] == LowerChar(s[i])
  {
    seq(|s|, i requires 0 <= i < |s| => LowerChar(s[i]))
  }

  predicate IsHexDigit(c: char) {
    '0' <= c <= '9' || 'a' <= c <= 'f' || 'A' <= c <= 'F'
  }

  function DigitValue(c: char): (d: nat)
    ensures IsHexDigit(c) ==> d < 16
  {
    if '0' <= c <= '9' then (c - '0') as nat
    else if 'a' <= c <= 'f' then 10 + (c - 'a') as nat
    else if 'A' <= c <= 'F' then 10 + (c - 'A') as nat
    else 0
  }

  function DigitChar(d: nat): (c: char)
    requires d < 16
    ensures IsHexDigit(c) && LowerChar(c) == c && DigitValue(c) == d
  {
    if d < 10 then '0' + d as char else 'a' + (d - 10) as char
  }

  lemma DigitOfValue(c: char)
    requires IsHexDigit(c)
    ensures DigitChar(DigitValue(c)) == LowerChar(c)
  {
  }

  const DEC: nat := 10
  const HEX: nat := 16

  /** The digits but the last, and the last digit, of `n` written in base ten or sixteen. */
  function Cut(n: nat, base: nat): (r: (nat, nat))
    requires base == DEC || base == HEX
    ensures r.1 < base && n == r.0 * base + r.1
  {
    if base == DEC then (n / 10, n % 10) else (n / 16, n % 16)
  }

  /** `n.toString(base)`. */
  function Show(n: nat, base: nat): (s: string)
    requires base == DEC || base == HEX
    ensures s != "" && forall i :: 0 <= i < |s| ==> IsHexDigit(s[i]) && LowerChar(s[i]) == s[i]
    decreases n
  {
    if n < base then [DigitChar(n)]
    else
      var (front, last) := Cut(n, base);
      Show(front, base) + [DigitChar(last)]
  }

  /** `parseInt(s, base)`, for texts of digits. */
  function Value(s: string, base: nat): nat {
    if s == "" then 0 else Value(s[..|s| - 1], base) * base + DigitValue(s[|s| - 1])
  }

  lemma {:induction false} ValueUndoesShow(n: nat, base: nat)
    requires base == DEC || base == HEX
    ensures Value(Show(n, base), base) == n
    decreases n
  {
    if n < base {
      assert [DigitChar(n)][..0] == "";
    } else {
      var (front, last) := Cut(n, base);
      ValueUndoesShow(front, base);
      assert (Show(front, base) + [DigitChar(last)])[..|Show(front, base)|] == Show(front, base);
    }
  }

  /** The hex digits, in either case. */
  lemma HexDigitsAre(c: char)
    ensures IsHexDigit(c) <==> c in "0123456789abcdefABCDEF"
  {
    var digits := "0123456789abcdefABCDEF";
    if '0' <= c <= '9' {
      assert digits[(c - '0') as nat] == c;
    } else if 'a' <= c <= 'f' {
      assert digits[10 + (c - 'a') as nat] == c;
    } else if 'A' <= c <= 'F' {
      assert digits[16 + (c - 'A') as nat] == c;
    }
  }

  /** The digits of either case are worth what their place in the row says. */
  lemma DigitsAreWorth(i: nat)
    requires i < 16
    ensures DigitValue("0123456789abcdef"[i]) == DigitValue("0123456789ABCDEF"[i]) == i
    ensures DigitChar(i) == "0123456789abcdef"[i]
  {
  }

  /** A text without leading zeros. */
  lemma {:induction false} ShowIsShort(n: nat, base: nat)
    requires base == DEC || base == HEX
    ensures |Show(n, base)| > 1 ==> Show(n, base)[0] != '0'
    ensures n > 0 ==> Show(n, base)[0] != '0'
    decreases n
  {
    if n >= base {
      ShowIsShort(Cut(n, base).0, base);
    }
  }

  lemma ShowTellsApart(m: nat, n: nat, base: nat)
    requires base == DEC || base == HEX
    requires Show(m, base) == Show(n, base)
    ensures m == n
  {
    ValueUndoesShow(m, base);
    ValueUndoesShow(n, base);
  }
}
