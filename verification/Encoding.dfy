/** The RESP wire format: one encoder for commands, one for each kind of reply. */
module Encoding {
  import opened Wrappers
  import opened Text

  // ------------------------------------------------------------- replies

  function SimpleString(value: string): string { "+" + value + CRLF }

  function ErrorReply(value: string): string { "-" + value + CRLF }

  function IntegerReply(value: int): string { ":" + PrintInt(value) + CRLF }

  function BulkString(value: string): string {
    "$" + Print(|value|) + CRLF + value + CRLF
  }

  const NULL_REPLY: string := "$-1\r\n"

  // ------------------------------------------------------------ commands

  function Bulks(arguments: seq<string>): string {
    if arguments == [] then "" else BulkString(arguments[0]) + Bulks(arguments[1..])
  }

  function Encode(arguments: seq<string>): string {
    "*" + Print(|arguments|) + CRLF + Bulks(arguments)
  }

  function Encodings(commands: seq<seq<string>>): (r: seq<string>)
    ensures |r| == |commands|
    ensures forall i :: 0 <= i < |commands| ==> r[i] == Encode(commands[i])
  {
    seq(|commands|, i requires 0 <= i < |commands| => Encode(commands[i]))
  }

  function Concat(parts: seq<string>): string {
    if parts == [] then "" else parts[0] + Concat(parts[1..])
  }

  lemma {:induction false} ConcatAppend(a: seq<string>, b: seq<string>)
    ensures Concat(a + b) == Concat(a) + Concat(b)
  {
    if a == [] {
      NothingAdded(b);
      NothingAdded(Concat(b));
    } else {
      ConcatAppend(a[1..], b);
      SplitFirst(a, b);
      Associate(a[0], Concat(a[1..]), Concat(b));
    }
  }

  lemma {:induction false} BulksAppend(arguments: seq<string>, last: string)
    ensures Bulks(arguments + [last]) == Bulks(arguments) + BulkString(last)
  {
    if arguments == [] {
      assert Bulks([last]) == BulkString(last) + Bulks([]);
      assert arguments + [last] == [last];
    } else {
      var first, rest := arguments[0], arguments[1..];
      BulksAppend(rest, last);
      SplitFirst(arguments, [last]);
      Associate(BulkString(first), Bulks(rest), BulkString(last));
    }
  }

  lemma AppendBulk(request: string, mark: string, digits: string, value: string, crlf: string)
    ensures request + mark + digits + crlf + value + crlf == request + (mark + digits + crlf + value + crlf)
  {
    Associate(request, mark, digits);
    Associate(request, mark + digits, crlf);
    Associate(request, mark + digits + crlf, value);
    Associate(request, mark + digits + crlf + value, crlf);
  }

  /** The client's encoder builds the request front to back in one string. */
  method EncodeResp(arguments: seq<string>) returns (request: string)
    ensures request == Encode(arguments)
  {
    var header := "*" + Print(|arguments|) + CRLF;
    request := header;
    for i := 0 to |arguments|
      invariant request == header + Bulks(arguments[..i])
    {
      AppendBulk(request, "$", Print(|arguments[i]|), arguments[i], CRLF);
      request := request + "$" + Print(|arguments[i]|) + CRLF + arguments[i] + CRLF;
      assert arguments[..i + 1] == arguments[..i] + [arguments[i]];
      BulksAppend(arguments[..i], arguments[i]);
      Associate(header, Bulks(arguments[..i]), BulkString(arguments[i]));
    }
    assert arguments[..|arguments|] == arguments;
  }

  // ------------------------------------- encoded text inside larger text

  /** `text` stands in `data` at `position`. */
  predicate At(data: string, position: nat, text: string) {
    position + |text| <= |data| && data[position..position + |text|] == text
  }

  lemma AtIndex(data: string, position: nat, text: string, i: nat)
    requires At(data, position, text) && i < |text|
    ensures data[position + i] == text[i]
  {
    assert data[position..position + |text|][i] == data[position + i];
  }

  lemma AtSplit(data: string, position: nat, a: string, b: string)
    requires At(data, position, a + b)
    ensures At(data, position, a) && At(data, position + |a|, b)
  {
    var t := data[position..position + |a + b|];
    assert t[..|a|] == a && t[|a|..] == b;
    assert data[position..position + |a|] == t[..|a|];
    assert data[position + |a|..position + |a| + |b|] == t[|a|..];
  }

  /** A header line: a mark and a printed number, ending at `end`. */
  ghost predicate HeaderLaid(data: string, position: nat, mark: char, n: nat, end: nat) {
    && position < end && end + 2 <= |data|
    && data[position] == mark
    && FindCrlf(data, position) == Some(end)
    && data[position + 1..end] == Print(n)
  }

  function HeaderEnd(position: nat, n: nat): nat { position + 1 + |Print(n)| }

  function BulkEnd(position: nat, value: string): nat { HeaderEnd(position, |value|) + 2 + |value| + 2 }

  function BulksEnd(position: nat, arguments: seq<string>): nat
    decreases |arguments|
  {
    if arguments == [] then position else BulksEnd(BulkEnd(position, arguments[0]), arguments[1..])
  }

  /** A bulk string at `position`: where its parts lie, whatever bytes its payload holds. */
  ghost predicate BulkLaid(data: string, position: nat, value: string) {
    var end := HeaderEnd(position, |value|);
    && HeaderLaid(data, position, '$', |value|, end)
    && BulkEnd(position, value) <= |data|
    && data[end + 2..end + 2 + |value|] == value
    && HasCrlf(data, end + 2 + |value|)
  }

  ghost predicate BulksLaid(data: string, position: nat, arguments: seq<string>)
    decreases |arguments|
  {
    position <= |data|
    && (arguments != [] ==> BulkLaid(data, position, arguments[0])
                            && BulksLaid(data, BulkEnd(position, arguments[0]), arguments[1..]))
  }

  /** A line of digits after a mark ends at its own CRLF. */
  lemma DigitLineEnds(data: string, position: nat, end: nat)
    requires position < end && HasCrlf(data, end) && data[position] != '\r'
    requires forall j :: position < j < end ==> IsDigit(data[j])
    ensures FindCrlf(data, position) == Some(end)
  {
    FindCrlfAt(data, position, end);
  }

  lemma HeaderParts(data: string, position: nat, mark: char, digits: string)
    requires At(data, position, [mark] + digits + CRLF)
    ensures data[position] == mark && At(data, position + 1, digits)
    ensures HasCrlf(data, position + 1 + |digits|)
  {
    Associate([mark], digits, CRLF);
    AtSplit(data, position, [mark], digits + CRLF);
    AtSplit(data, position + 1, digits, CRLF);
    AtIndex(data, position, [mark], 0);
    var end := position + 1 + |digits|;
    AtIndex(data, end, CRLF, 0);
    AtIndex(data, end, CRLF, 1);
  }

  lemma DigitsAt(data: string, position: nat, digits: string)
    requires At(data, position, digits)
    requires forall i :: 0 <= i < |digits| ==> IsDigit(digits[i])
    ensures forall j :: position <= j < position + |digits| ==> IsDigit(data[j])
  {
    forall j | position <= j < position + |digits| ensures IsDigit(data[j]) {
      AtIndex(data, position, digits, j - position);
    }
  }

  lemma HeaderAt(data: string, position: nat, mark: char, n: nat)
    requires At(data, position, [mark] + Print(n) + CRLF) && mark != '\r'
    ensures HeaderLaid(data, position, mark, n, HeaderEnd(position, n))
  {
    HeaderParts(data, position, mark, Print(n));
    PrintedNumbersAreDigits(n);
    DigitsAt(data, position + 1, Print(n));
    DigitLineEnds(data, position, HeaderEnd(position, n));
  }

  lemma BulkAt(data: string, position: nat, value: string)
    requires At(data, position, BulkString(value))
    ensures BulkLaid(data, position, value)
    ensures position + |BulkString(value)| == BulkEnd(position, value)
  {
    var digits := Print(|value|);
    var header := "$" + digits + CRLF;
    Associate(header, value, CRLF);
    AtSplit(data, position, header, value + CRLF);
    HeaderAt(data, position, '$', |value|);
    var end := position + 1 + |digits|;
    AtSplit(data, end + 2, value, CRLF);
    AtIndex(data, end + 2 + |value|, CRLF, 0);
    AtIndex(data, end + 2 + |value|, CRLF, 1);
  }

  lemma {:induction false} BulksAt(data: string, position: nat, arguments: seq<string>)
    requires At(data, position, Bulks(arguments))
    ensures BulksLaid(data, position, arguments)
    ensures position + |Bulks(arguments)| == BulksEnd(position, arguments)
    decreases |arguments|
  {
    if arguments != [] {
      AtSplit(data, position, BulkString(arguments[0]), Bulks(arguments[1..]));
      BulkAt(data, position, arguments[0]);
      BulksAt(data, BulkEnd(position, arguments[0]), arguments[1..]);
    }
  }

  /** An encoded command at the start of `data`: its header line, its bulk strings, its end. */
  lemma CommandAt(data: string, arguments: seq<string>)
    requires Encode(arguments) <= data
    ensures HeaderLaid(data, 0, '*', |arguments|, HeaderEnd(0, |arguments|))
    ensures BulksLaid(data, HeaderEnd(0, |arguments|) + 2, arguments)
    ensures BulksEnd(HeaderEnd(0, |arguments|) + 2, arguments) == |Encode(arguments)|
  {
    var header := "*" + Print(|arguments|) + CRLF;
    AtSplit(data, 0, header, Bulks(arguments));
    HeaderAt(data, 0, '*', |arguments|);
    BulksAt(data, |header|, arguments);
  }

  /** No argument, and no list of arguments, is longer than its encoding. */
  lemma {:induction false} BulksCoverTheirArguments(arguments: seq<string>)
    ensures |arguments| <= |Bulks(arguments)|
    ensures forall i :: 0 <= i < |arguments| ==> |arguments[i]| <= |Bulks(arguments)|
  {
    if arguments != [] {
      BulksCoverTheirArguments(arguments[1..]);
      forall i | 0 <= i < |arguments| ensures |arguments[i]| <= |Bulks(arguments)| {
        if i > 0 {
          assert arguments[i] == arguments[1..][i - 1];
        }
      }
    }
  }
}
