/** Trimming and decimal digits, as the cursor file, the secrets file and the timestamps use them.
    Texts are sequences of UTF-16 code units; white space is what a script's `trim` strips, and a number's
    digits are written without a sign, a separator or a leading zero unless a width is asked for.
    Nothing here depends on the store or on the stream. */
module Texts {
  // ----- trimming

  /** What `trim` strips: white space and line terminators. */
  predicate IsSpace(c: char) {
    var u := c as int;
    || u == 9 || u == 10 || u == 11 || u == 12 || u == 13 || u == 32 || u == 0xA0 || u == 0x1680
    || 0x2000 <= u <= 0x200A || u == 0x2028 || u == 0x2029 || u == 0x202F || u == 0x205F || u == 0x3000 || u == 0xFEFF
  }

  function TrimStart(s: string): string {
    if s == "" || !IsSpace(s[0]) then s else TrimStart(s[1..])
  }

  function TrimEnd(s: string): string {
    if s == "" || !IsSpace(s[|s| - 1]) then s else TrimEnd(s[..|s| - 1])
  }

  function Trim(s: string): string { TrimEnd(TrimStart(s)) }

  ghost predicate Blank(s: string) { forall i :: 0 <= i < |s| ==> IsSpace(s[i]) }

  /** Neither end is white space. */
  ghost predicate Tight(s: string) { s == "" || (!IsSpace(s[0]) && !IsSpace(s[|s| - 1])) }

  lemma {:induction false} TrimStartDrops(before: string, s: string)
    requires Blank(before)
    ensures TrimStart(before + s) == TrimStart(s)
  {
    if before == "" {
      assert before + s == s;
    } else {
      TrimStartDrops(before[1..], s);
      assert (before + s)[1..] == before[1..] + s;
    }
  }

  lemma {:induction false} TrimEndDrops(s: string, after: string)
    requires Blank(after)
    ensures TrimEnd(s + after) == TrimEnd(s)
  {
    if after == "" {
      assert s + after == s;
    } else {
      TrimEndDrops(s, after[..|after| - 1]);
      assert (s + after)[..|s + after| - 1] == s + after[..|after| - 1];
    }
  }

  /** Trimming takes away exactly the white space around a text. */
  lemma TrimPadded(before: string, s: string, after: string)
    requires Blank(before) && Tight(s) && Blank(after)
    ensures Trim(before + s + after) == s
  {
    hide IsSpace;
    assert before + s + after == before + (s + after);
    TrimStartDrops(before, s + after);
    if s == "" {
      TrimStartDrops(after, "");
      assert s + after == after + "" && after + "" == after;
    } else {
      assert TrimStart(s + after) == s + after;
      TrimEndDrops(s, after);
    }
  }

  lemma {:induction false} TrimStartCuts(s: string) returns (before: string)
    ensures Blank(before) && s == before + TrimStart(s) && (TrimStart(s) != "" ==> !IsSpace(TrimStart(s)[0]))
  {
    before := "";
    if s != "" && IsSpace(s[0]) {
      before := TrimStartCuts(s[1..]);
      before := [s[0]] + before;
    }
  }

  lemma {:induction false} TrimEndCuts(s: string) returns (after: string)
    ensures Blank(after) && s == TrimEnd(s) + after && (TrimEnd(s) != "" ==> !IsSpace(TrimEnd(s)[|TrimEnd(s)| - 1]))
  {
    after := "";
    if s != "" && IsSpace(s[|s| - 1]) {
      after := TrimEndCuts(s[..|s| - 1]);
      after := after + [s[|s| - 1]];
    }
  }

  lemma TrimCuts(s: string) returns (before: string, after: string)
    ensures Blank(before) && Tight(Trim(s)) && Blank(after) && s == before + Trim(s) + after
  {
    hide IsSpace;
    before := TrimStartCuts(s);
    after := TrimEndCuts(TrimStart(s));
    assert Trim(s) != "" ==> Trim(s)[0] == TrimStart(s)[0];
  }

  // ----- digits

  function DigitChar(n: int): char
    requires 0 <= n <= 9
  {
    '0' + n as char
  }

  predicate AllDigits(text: string) { forall i :: 0 <= i < |text| ==> '0' <= text[i] <= '9' }

  /** The last `width` decimal digits. */
  function Digits(n: nat, width: nat): (text: string)
    ensures |text| == width && AllDigits(text)
  {
    if width == 0 then "" else Digits(n / 10, width - 1) + [DigitChar(n % 10)]
  }

  /** All decimal digits. */
  function Decimal(n: nat): (text: string)
    ensures text != "" && AllDigits(text)
  {
    if n < 10 then [DigitChar(n)] else Decimal(n / 10) + [DigitChar(n % 10)]
  }

  function Value(text: string): nat
    requires AllDigits(text)
  {
    if text == "" then 0 else 10 * Value(text[..|text| - 1]) + (text[|text| - 1] - '0') as nat
  }

  /** Digits read back as the number they were written for, if there are enough of them. */
  lemma {:induction false} ValueOfDigits(n: nat, width: nat)
    requires n < Pow10(width)
    ensures Value(Digits(n, width)) == n
  {
    if width > 0 {
      var text := Digits(n, width);
      ValueOfDigits(n / 10, width - 1);
      assert text[..|text| - 1] == Digits(n / 10, width - 1);
    }
  }

  function Pow10(width: nat): nat { if width == 0 then 1 else 10 * Pow10(width - 1) }

  lemma {:induction false} ValueOfDecimal(n: nat)
    ensures Value(Decimal(n)) == n
  {
    if n >= 10 {
      ValueOfDecimal(n / 10);
      assert Decimal(n)[..|Decimal(n)| - 1] == Decimal(n / 10);
    }
  }
}
