/** Optional values, and results of operations that throw or report an error. */
module Wrappers {
  datatype Option<+T> = None | Some(value: T)

  datatype Result<+T, +E> = Ok(value: T) | Err(error: E)
}

/** The text scanning and number conversion every RESP decoder of the server shares. */
module Text {
  import opened Wrappers

  const CRLF: string := "\r\n"

  /** The text between two positions, nothing when they are crossed. */
  function Between(s: string, start: nat, end: nat): string
    requires end <= |s|
  {
    if start <= end then s[start..end] else ""
  }

  // ----------------------------------------------------------- sequences

  lemma Associate<T>(a: seq<T>, b: seq<T>, c: seq<T>)
    ensures a + b + c == a + (b + c)
  {
  }

  lemma SplitFirst<T>(a: seq<T>, b: seq<T>)
    requires a != []
    ensures (a + b)[0] == a[0] && (a + b)[1..] == a[1..] + b
  {
  }

  lemma SplitLast<T>(a: seq<T>, b: seq<T>)
    requires b != []
    ensures (a + b)[..|a + b| - 1] == a + b[..|b| - 1] && (a + b)[|a + b| - 1] == b[|b| - 1]
  {
  }

  lemma NothingAdded<T>(a: seq<T>)
    ensures a + [] == a && [] + a == a
  {
  }

  // ---------------------------------------------------------------- CRLF

  predicate HasCrlf(s: string, k: nat) {
    k + 1 < |s| && s[k] == '\r' && s[k + 1] == '\n'
  }

  /** The first CRLF at or after `from`, as `std::string::find` gives it. */
  function FindCrlf(s: string, from: nat): (r: Option<nat>)
    ensures r.Some? ==> from <= r.value && r.value + 2 <= |s|
    decreases |s| - from
  {
    if from + 1 >= |s| then None
    else if HasCrlf(s, from) then Some(from)
    else FindCrlf(s, from + 1)
  }

  /** It finds a CRLF exactly when there is one, and it finds the first. */
  lemma {:induction false} FindCrlfIsFirst(s: string, from: nat)
    ensures FindCrlf(s, from).None? ==> forall k :: from <= k ==> !HasCrlf(s, k)
    ensures FindCrlf(s, from).Some? ==>
              var end := FindCrlf(s, from).value;
              HasCrlf(s, end) && forall k :: from <= k < end ==> !HasCrlf(s, k)
    decreases |s| - from
  {
    if from + 1 < |s| && !HasCrlf(s, from) {
      FindCrlfIsFirst(s, from + 1);
    }
  }

  /** The first CRLF is the only answer. */
  lemma FindCrlfAt(s: string, from: nat, end: nat)
    requires from <= end && HasCrlf(s, end)
    requires forall j :: from <= j < end ==> !HasCrlf(s, j)
    ensures FindCrlf(s, from) == Some(end)
  {
    FindCrlfIsFirst(s, from);
  }

  /** Bytes that arrive later never move a line end that was already found. */
  lemma FindCrlfStable(a: string, b: string, from: nat)
    requires FindCrlf(a, from).Some?
    ensures FindCrlf(a + b, from) == FindCrlf(a, from)
  {
    FindCrlfIsFirst(a, from);
    var end := FindCrlf(a, from).value;
    forall j | from <= j < end ensures !HasCrlf(a + b, j) {
      assert !HasCrlf(a, j);
    }
    FindCrlfAt(a + b, from, end);
  }

  // ------------------------------------------------------------- numbers

  const SIZE_T: int := 0x1_0000_0000_0000_0000
  const LLONG: int := 0x8000_0000_0000_0000

  /** No `std::string` is longer than its `max_size`. */
  const STRING_MAX: int := LLONG - 2

  /** A sum in `size_t` arithmetic. */
  function Wrap(n: nat): (r: nat)
    ensures r < SIZE_T
    ensures n < SIZE_T ==> r == n
  {
    n % SIZE_T
  }

  predicate IsDigit(c: char) {
    '0' <= c <= '9'
  }

  function DigitValue(c: char): (d: nat)
    requires IsDigit(c)
    ensures d < 10
  {
    c as int - '0' as int
  }

  function DigitChar(d: nat): (c: char)
    requires d < 10
    ensures IsDigit(c) && DigitValue(c) == d
  {
    ('0' as int + d) as char
  }

  /** The number a string of digits denotes, without any width limit; none if it holds anything else. */
  function Decimal(s: string): Option<nat> {
    if s == "" then Some(0)
    else match Decimal(s[..|s| - 1])
      case None => None
      case Some(n) => if IsDigit(s[|s| - 1]) then Some(n * 10 + DigitValue(s[|s| - 1])) else None
  }

  lemma {:induction false} DecimalReadsDigits(s: string)
    ensures Decimal(s).Some? <==> forall i :: 0 <= i < |s| ==> IsDigit(s[i])
  {
    if s != "" {
      var init := s[..|s| - 1];
      DecimalReadsDigits(init);
      assert forall i :: 0 <= i < |init| ==> init[i] == s[i];
    }
  }

  /** `std::to_string` of an unsigned number. */
  function Print(n: nat): (s: string)
    ensures s != ""
  {
    if n < 10 then [DigitChar(n)] else Print(n / 10) + [DigitChar(n % 10)]
  }

  /** Decimal print and parse are inverse. */
  lemma {:induction false} PrintThenDecimal(n: nat)
    ensures Decimal(Print(n)) == Some(n)
  {
    var s := Print(n);
    if n < 10 {
      assert s[..|s| - 1] == "";
    } else {
      PrintThenDecimal(n / 10);
      assert s[..|s| - 1] == Print(n / 10);
    }
  }

  function PrintInt(n: int): string {
    if n < 0 then "-" + Print(-n) else Print(n)
  }

  /** What the framer's digit loop computes: the number in `size_t` arithmetic. */
  function ParseSize(s: string): (r: Option<nat>)
    ensures r.Some? ==> r.value < SIZE_T
  {
    if s == "" then None
    else match Decimal(s)
      case None => None
      case Some(n) => Some(n % SIZE_T)
  }

  /** The same for the text between two positions; no text is no number. */
  function SizeBetween(s: string, start: nat, end: nat): (r: Option<nat>)
    requires end <= |s|
    ensures r.Some? ==> r.value < SIZE_T && start < end
  {
    if start >= end then None else ParseSize(s[start..end])
  }

  /** `std::from_chars` into a `long long` that must consume the whole text. */
  function FromChars(s: string): (r: Option<int>)
    ensures r.Some? ==> -LLONG <= r.value < LLONG
  {
    if s == "" || s == "-" then None
    else if s[0] == '-' then InRange(Decimal(s[1..]), true)
    else InRange(Decimal(s), false)
  }

  function InRange(magnitude: Option<nat>, negative: bool): (r: Option<int>)
    ensures r.Some? ==> -LLONG <= r.value < LLONG
  {
    match magnitude
    case None => None
    case Some(n) =>
      var value: int := if negative then 0 - n else n;
      if -LLONG <= value < LLONG then Some(value) else None
  }

  predicate IsSpace(c: char) {
    c == ' ' || 9 <= c as int <= 13
  }

  function SkipSpaces(s: string): string {
    if s != "" && IsSpace(s[0]) then SkipSpaces(s[1..]) else s
  }

  function DigitPrefix(s: string): string {
    if s != "" && IsDigit(s[0]) then [s[0]] + DigitPrefix(s[1..]) else ""
  }

  /** `std::stoll`: blanks, a sign, then the longest run of digits; the rest is ignored. */
  function Stoll(s: string): (r: Option<int>)
    ensures r.Some? ==> -LLONG <= r.value < LLONG
  {
    var t := SkipSpaces(s);
    var signed := t != "" && (t[0] == '-' || t[0] == '+');
    var digits := DigitPrefix(if signed then t[1..] else t);
    if digits == "" then None else InRange(Decimal(digits), signed && t[0] == '-')
  }

  lemma {:induction false} DigitPrefixOfDigits(s: string)
    requires forall i :: 0 <= i < |s| ==> IsDigit(s[i])
    ensures DigitPrefix(s) == s
  {
    if s != "" {
      DigitPrefixOfDigits(s[1..]);
      assert s == [s[0]] + s[1..];
    }
  }

  /** A printed number has no byte that could end a line or pass for a sign. */
  lemma PrintedNumbersAreDigits(n: nat)
    ensures forall i :: 0 <= i < |Print(n)| ==> IsDigit(Print(n)[i])
  {
    PrintThenDecimal(n);
    DecimalReadsDigits(Print(n));
  }

  lemma NumeralParses(s: string, n: nat)
    requires s != "" && IsDigit(s[0]) && Decimal(s) == Some(n)
    ensures n < SIZE_T ==> ParseSize(s) == Some(n)
    ensures n < LLONG ==> FromChars(s) == Some(n)
  {
  }

  /** A printed number is read back by every conversion whose type it fits. */
  lemma PrintedNumbersParse(n: nat)
    ensures n < SIZE_T ==> ParseSize(Print(n)) == Some(n)
    ensures n < LLONG ==> FromChars(Print(n)) == Some(n)
  {
    PrintThenDecimal(n);
    PrintedNumbersAreDigits(n);
    NumeralParses(Print(n), n);
  }

  /** A printed integer, its sign included, is read back as itself. */
  lemma PrintedIntegersParse(n: int)
    requires -LLONG <= n < LLONG
    ensures FromChars(PrintInt(n)) == Some(n)
  {
    if n < 0 {
      PrintThenDecimal(-n);
      PrintedNumbersAreDigits(-n);
      hide Print, Decimal;
      assert PrintInt(n)[1..] == Print(-n) && PrintInt(n) != "-";
    } else {
      PrintedNumbersParse(n);
    }
  }

  lemma {:induction false} SkipsBlanks(blanks: string, rest: string)
    requires (forall i :: 0 <= i < |blanks| ==> IsSpace(blanks[i])) && (rest == "" || !IsSpace(rest[0]))
    ensures SkipSpaces(blanks + rest) == rest
  {
    if blanks == "" {
      assert blanks + rest == rest;
    } else {
      SkipsBlanks(blanks[1..], rest);
      SplitFirst(blanks, rest);
    }
  }

  lemma {:induction false} TakesDigits(digits: string, rest: string)
    requires (forall i :: 0 <= i < |digits| ==> IsDigit(digits[i])) && (rest == "" || !IsDigit(rest[0]))
    ensures DigitPrefix(digits + rest) == digits
  {
    if digits == "" {
      assert digits + rest == rest;
    } else {
      TakesDigits(digits[1..], rest);
      SplitFirst(digits, rest);
      assert [digits[0]] + digits[1..] == digits;
    }
  }

  /**
   * The loose conversion reads a printed number behind any blanks and an optional sign, whatever follows it but a
   * digit; and it reads nothing where blanks and a sign are not followed by a digit.
   */
  lemma LooseNumbersParse(blanks: string, sign: string, n: nat, rest: string)
    requires forall i :: 0 <= i < |blanks| ==> IsSpace(blanks[i])
    requires sign == "" || sign == "+" || sign == "-"
    requires rest == "" || !IsDigit(rest[0])
    ensures Stoll(blanks + (sign + (Print(n) + rest))) == InRange(Some(n), sign == "-")
    ensures (rest != "" && sign == "" ==> !IsSpace(rest[0]) && rest[0] != '+' && rest[0] != '-') ==>
              Stoll(blanks + (sign + rest)) == None
  {
    PrintThenDecimal(n);
    PrintedNumbersAreDigits(n);
    hide Print, Decimal, InRange, SkipSpaces, DigitPrefix;
    SkipsBlanks(blanks, sign + (Print(n) + rest));
    TakesDigits(Print(n), rest);
    assert sign != "" ==> (sign + (Print(n) + rest))[1..] == Print(n) + rest;
    assert sign == "" ==> sign + (Print(n) + rest) == Print(n) + rest;
    if rest != "" && sign == "" ==> !IsSpace(rest[0]) && rest[0] != '+' && rest[0] != '-' {
      SkipsBlanks(blanks, sign + rest);
      TakesDigits("", rest);
      assert "" + rest == rest && (sign != "" ==> (sign + rest)[1..] == rest);
      assert sign == "" ==> sign + rest == rest;
    }
  }

  /** Whatever the strict conversion accepts, the loose one reads as the same number. */
  lemma StollExtendsFromChars(s: string)
    requires FromChars(s).Some?
    ensures Stoll(s) == FromChars(s)
  {
    var digits := if s[0] == '-' then s[1..] else s;
    DecimalReadsDigits(digits);
    DigitPrefixOfDigits(digits);
    assert s[0] == '-' || IsDigit(s[0]);
  }

  /** The framer reads a header like the strict conversion unless a minus sign or the width sets them apart. */
  lemma FramerNumbersAgree(s: string)
    ensures ParseSize(s).Some? ==> FromChars(s) == if Decimal(s).value < LLONG then ParseSize(s) else None
    ensures FromChars(s).Some? ==> s != "" && ParseSize(s) == if s[0] != '-' then FromChars(s) else None
    ensures FromChars(s).Some? && s[0] == '-' ==> FromChars(s).value <= 0
  {
    DecimalReadsDigits(s);
    hide Decimal;
    if s != "" && s[0] == '-' {
      assert !IsDigit(s[0]) && Decimal(s).None?;
    } else if Decimal(s).Some? && Decimal(s).value < LLONG {
      assert Decimal(s).value % SIZE_T == Decimal(s).value;
    }
  }

  lemma ModStep(x: nat, d: nat)
    ensures (x % SIZE_T * 10 + d) % SIZE_T == (x * 10 + d) % SIZE_T
  {
    var q, r := x / SIZE_T, x % SIZE_T;
    assert x * 10 + d == (r * 10 + d) + SIZE_T * (q * 10);
    ModAdd(r * 10 + d, q * 10);
  }

  lemma {:induction false} ModAdd(y: nat, k: nat)
    ensures (y + SIZE_T * k) % SIZE_T == y % SIZE_T
  {
    if k > 0 {
      ModAdd(y, k - 1);
      assert (y + SIZE_T * k) == (y + SIZE_T * (k - 1)) + SIZE_T;
    }
  }

  lemma DecimalOfNothing()
    ensures Decimal("") == Some(0)
  {
  }

  /** One more character. */
  lemma DecimalStep(value: string, start: nat, i: nat)
    requires start <= i < |value|
    ensures Decimal(value[start..i + 1]) ==
            if Decimal(value[start..i]).Some? && IsDigit(value[i]) then
              Some(Decimal(value[start..i]).value * 10 + DigitValue(value[i]))
            else None
  {
    assert value[start..i + 1][..i - start] == value[start..i];
  }

  /** The framer's number scanner, with the wrap-around of its `size_t` accumulator. */
  method ParseDecimal(value: string, start: nat, end: nat) returns (ok: bool, result: nat)
    requires end <= |value|
    ensures ok <==> SizeBetween(value, start, end).Some?
    ensures ok ==> SizeBetween(value, start, end) == Some(result)
  {
    if start >= end {
      return false, 0;
    }
    hide Decimal;
    DecimalOfNothing();
    assert value[start..start] == "";
    var number := 0;
    var i: nat := start;
    while i < end
      invariant start <= i <= end
      invariant Decimal(value[start..i]).Some? && number == Decimal(value[start..i]).value % SIZE_T
    {
      var character := value[i];
      DecimalStep(value, start, i);
      if !IsDigit(character) {
        DecimalReadsDigits(value[start..end]);
        assert !IsDigit(value[start..end][i - start]);
        return false, 0;
      }
      ModStep(Decimal(value[start..i]).value, DigitValue(character));
      number := (number * 10 + DigitValue(character)) % SIZE_T;
      i := i + 1;
    }
    return true, number;
  }
}
