/** Turning the text of the input file into the number list, and the text of the
    thread-count argument into an integer. */
module Parsing {
  import opened Numeric

  predicate IsDigit(c: char) {
    '0' <= c <= '9'
  }

  predicate AllDigits(s: string) {
    forall k :: 0 <= k < |s| ==> IsDigit(s[k])
  }

  /** The value of a string of decimal digits, most significant digit first. */
  function DigitsValue(s: string): nat
    requires AllDigits(s)
  {
    if |s| == 0 then 0 else DigitsValue(s[..|s| - 1]) * 10 + (s[|s| - 1] as int - '0' as int)
  }

  /** Decimal integer parsing as Integer.parseInt / Long.parseLong, Kotlin's toIntOrNull /
      toLongOrNull and Go's strconv.Atoi / strconv.ParseInt(_, 10, 64) do it for the range
      [lo, hi] of their result type: an optional sign '+' or '-', then one or more digits,
      leading zeros allowed; anything else, or a value outside [lo, hi], is rejected. */
  function ParseInteger(text: string, lo: int, hi: int): (r: Option<int>)
    ensures r.Some? ==> lo <= r.value <= hi
  {
    if |text| == 0 then None
    else
      var signed := text[0] == '-' || text[0] == '+';
      var digits := if signed then text[1..] else text;
      if |digits| == 0 || !AllDigits(digits) then None
      else
        var magnitude: int := DigitsValue(digits);
        var value: int := if text[0] == '-' then -magnitude else magnitude;
        if lo <= value <= hi then Some(value) else None
  }

  /** Only an optional sign followed by at least one digit is accepted: a lone '-' or '+'
      and an empty text are rejected. */
  lemma ParseIntegerShape(text: string, lo: int, hi: int)
    requires ParseInteger(text, lo, hi).Some?
    ensures |text| >= 1 && text != "-" && text != "+"
    ensures (IsDigit(text[0]) || text[0] == '-' || text[0] == '+') && AllDigits(text[1..])
  {
    if text[0] == '-' || text[0] == '+' {
      assert |text[1..]| > 0;
    } else {
      assert AllDigits(text);
    }
  }

  /** The shortest decimal digits of n. */
  function NatDigits(n: nat): (s: string)
    ensures |s| >= 1 && AllDigits(s)
  {
    var last := ('0' as int + n % 10) as char;
    if n < 10 then [last] else NatDigits(n / 10) + [last]
  }

  /** The decimal text of x, with a leading '-' when x is negative. */
  function Format(x: int): string {
    if x < 0 then "-" + NatDigits(-x) else NatDigits(x)
  }

  lemma {:induction false} NatDigitsValue(n: nat)
    ensures DigitsValue(NatDigits(n)) == n
  {
    if n >= 10 {
      NatDigitsValue(n / 10);
      var s := NatDigits(n);
      assert s[..|s| - 1] == NatDigits(n / 10);
    }
  }

  /** Parsing inverts formatting: the decimal text of any x in [lo, hi] parses back to x,
      and that of any x outside it is rejected. */
  lemma ParseFormat(x: int, lo: int, hi: int)
    ensures ParseInteger(Format(x), lo, hi) == if lo <= x <= hi then Some(x) else None
  {
    var text := Format(x);
    if x < 0 {
      NatDigitsValue(-x);
      assert text[1..] == NatDigits(-x);
    } else {
      NatDigitsValue(x);
    }
  }

  /** The characters kept in tokens of the input file: ASCII digits and '-'. */
  predicate IsTokenChar(c: char) {
    IsDigit(c) || c == '-'
  }

  /** A token: a non-empty run of digits and '-'. */
  predicate IsToken(t: string) {
    |t| >= 1 && forall k :: 0 <= k < |t| ==> IsTokenChar(t[k])
  }

  /** No token character at all. */
  predicate IsSeparator(w: string) {
    forall k :: 0 <= k < |w| ==> !IsTokenChar(w[k])
  }

  /** The length of the run of token characters that s starts with. */
  function RunLength(s: string): (n: nat)
    ensures n <= |s|
    ensures forall k :: 0 <= k < n ==> IsTokenChar(s[k])
    ensures n < |s| ==> !IsTokenChar(s[n])
  {
    if |s| == 0 || !IsTokenChar(s[0]) then 0 else 1 + RunLength(s[1..])
  }

  /** The maximal runs of digits and '-' of s, in order: what splitting on `[^0-9-]+`
      (Java, Kotlin) and strings.FieldsFunc (Go) leave once empty pieces are dropped. */
  function Tokens(s: string): (tokens: seq<string>)
    ensures forall k :: 0 <= k < |tokens| ==> IsToken(tokens[k])
    decreases |s|
  {
    if |s| == 0 then []
    else if !IsTokenChar(s[0]) then Tokens(s[1..])
    else
      var n := RunLength(s);
      [s[..n]] + Tokens(s[n..])
  }

  lemma {:induction false} TokensAfterSeparator(w: string, s: string)
    requires IsSeparator(w)
    ensures Tokens(w + s) == Tokens(s)
  {
    if |w| > 0 {
      assert (w + s)[1..] == w[1..] + s;
      TokensAfterSeparator(w[1..], s);
    } else {
      assert w + s == s;
    }
  }

  lemma {:induction false} RunLengthOfToken(t: string, s: string)
    requires forall k :: 0 <= k < |t| ==> IsTokenChar(t[k])
    requires |s| == 0 || !IsTokenChar(s[0])
    ensures RunLength(t + s) == |t|
  {
    if |t| > 0 {
      assert (t + s)[1..] == t[1..] + s;
      RunLengthOfToken(t[1..], s);
    } else {
      assert t + s == s;
    }
  }

  lemma TokensOfToken(t: string, s: string)
    requires IsToken(t) && (|s| == 0 || !IsTokenChar(s[0]))
    ensures Tokens(t + s) == [t] + Tokens(s)
  {
    RunLengthOfToken(t, s);
    assert (t + s)[..|t|] == t;
    assert (t + s)[|t|..] == s;
  }

  /** The tokens written out one after another, separated by sep. */
  function Join(tokens: seq<string>, sep: string): string {
    if |tokens| == 0 then ""
    else if |tokens| == 1 then tokens[0]
    else tokens[0] + sep + Join(tokens[1..], sep)
  }

  /** Tokenizing undoes joining: tokens joined by any non-empty separator come back as
      the same tokens, so each token is a maximal run and none is lost or merged. */
  lemma {:induction false} TokensOfJoin(tokens: seq<string>, sep: string)
    requires forall k :: 0 <= k < |tokens| ==> IsToken(tokens[k])
    requires |sep| >= 1 && IsSeparator(sep)
    ensures Tokens(Join(tokens, sep)) == tokens
  {
    if |tokens| == 1 {
      TokensOfToken(tokens[0], "");
      assert tokens[0] + "" == tokens[0];
    } else if |tokens| > 1 {
      var rest := Join(tokens[1..], sep);
      TokensOfJoin(tokens[1..], sep);
      assert tokens[0] + sep + rest == tokens[0] + (sep + rest);
      TokensOfToken(tokens[0], sep + rest);
      TokensAfterSeparator(sep, rest);
      assert tokens == [tokens[0]] + tokens[1..];
    }
  }

  /** What one token contributes: its value when it is a signed 64-bit decimal, else nothing. */
  function TokenNumber(token: string): (r: seq<Int64>)
    ensures |r| <= 1
  {
    match ParseInteger(token, Int64Min, Int64Max)
    case Some(v) => [v as Int64]
    case None => []
  }

  /** A lone '-' and a run with a '-' after its first character, such as "1-2" or "--3",
      contribute nothing. */
  lemma MalformedTokenSkipped(token: string)
    requires token == "-" || (|token| >= 2 && '-' in token[1..])
    ensures TokenNumber(token) == []
  {
    if ParseInteger(token, Int64Min, Int64Max).Some? {
      ParseIntegerShape(token, Int64Min, Int64Max);
    }
  }

  /** The numbers of the tokens that parse as signed 64-bit decimals, in order. */
  function KeepNumbers(tokens: seq<string>): seq<Int64> {
    if |tokens| == 0 then []
    else KeepNumbers(tokens[..|tokens| - 1]) + TokenNumber(tokens[|tokens| - 1])
  }

  /** readNumbers without the file read: the numbers of the content's tokens, skipping a
      lone '-' and every token that is not a signed 64-bit decimal. */
  method ReadNumbers(content: string) returns (numbers: seq<Int64>)
    ensures numbers == KeepNumbers(Tokens(content))
  {
    var tokens := Tokens(content);
    numbers := [];
    for k := 0 to |tokens|
      invariant numbers == KeepNumbers(tokens[..k])
    {
      var token := tokens[k];
      assert tokens[..k + 1][..k] == tokens[..k];
      if token == "-" {
        continue;
      }
      match ParseInteger(token, Int64Min, Int64Max) {
        case Some(n) =>
          numbers := numbers + [n];
        case None =>
      }
    }
    assert tokens[..|tokens|] == tokens;
  }

  /** The decimal texts of a list of numbers. */
  function FormatAll(xs: seq<Int64>): (texts: seq<string>)
    ensures |texts| == |xs|
  {
    if |xs| == 0 then [] else FormatAll(xs[..|xs| - 1]) + [Format(xs[|xs| - 1])]
  }

  lemma TokenNumberFormat(x: Int64)
    ensures TokenNumber(Format(x)) == [x]
  {
    ParseFormat(x, Int64Min, Int64Max);
  }

  /** Tokens that each parse to the corresponding number are kept, all of them, in order. */
  lemma {:induction false} KeepAll(texts: seq<string>, xs: seq<Int64>)
    requires |texts| == |xs|
    requires forall k :: 0 <= k < |texts| ==> TokenNumber(texts[k]) == [xs[k]]
    ensures KeepNumbers(texts) == xs
  {
    if |xs| > 0 {
      var n := |xs|;
      KeepAll(texts[..n - 1], xs[..n - 1]);
      assert xs == xs[..n - 1] + [xs[n - 1]];
    }
  }

  /** Reading back any list of 64-bit integers written in decimal, separated by a
      non-empty run of other characters, yields exactly that list. */
  lemma ReadFormatted(xs: seq<Int64>, sep: string)
    requires |sep| >= 1 && IsSeparator(sep)
    ensures KeepNumbers(Tokens(Join(FormatAll(xs), sep))) == xs
  {
    var texts := FormatAll(xs);
    forall k | 0 <= k < |texts|
      ensures IsToken(texts[k]) && TokenNumber(texts[k]) == [xs[k]]
    {
      FormatIsToken(xs, k);
      TokenNumberFormat(xs[k]);
    }
    TokensOfJoin(texts, sep);
    KeepAll(texts, xs);
  }

  lemma {:induction false} FormatIsToken(xs: seq<Int64>, k: nat)
    requires k < |xs|
    ensures FormatAll(xs)[k] == Format(xs[k]) && IsToken(Format(xs[k]))
  {
    if k < |xs| - 1 {
      FormatIsToken(xs[..|xs| - 1], k);
    }
  }
}
