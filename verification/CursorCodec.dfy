/** Pagination cursors: an id, printed in decimal, in Base64 (section 4 of RFC 4648). */
module CursorCodec {
  import opened Redis

  type Byte = b: int | 0 <= b < 256
  type Sextet = n: int | 0 <= n < 64

  // ----- Base64 -----

  function Symbol(n: Sextet): char {
    if n < 26 then ('A' as int + n) as char
    else if n < 52 then ('a' as int + n - 26) as char
    else if n < 62 then ('0' as int + n - 52) as char
    else if n == 62 then '+' else '/'
  }

  function Value(c: char): Option<Sextet> {
    if 'A' <= c <= 'Z' then Some(c as int - 'A' as int)
    else if 'a' <= c <= 'z' then Some(c as int - 'a' as int + 26)
    else if '0' <= c <= '9' then Some(c as int - '0' as int + 52)
    else if c == '+' then Some(62) else if c == '/' then Some(63) else None
  }

  function Encode(data: seq<Byte>): string {
    if |data| == 0 then ""
    else if |data| == 1 then [Symbol(data[0] / 4), Symbol(data[0] % 4 * 16), '=', '=']
    else if |data| == 2 then
      [Symbol(data[0] / 4), Symbol(data[0] % 4 * 16 + data[1] / 16), Symbol(data[1] % 16 * 4), '=']
    else
      [Symbol(data[0] / 4), Symbol(data[0] % 4 * 16 + data[1] / 16),
       Symbol(data[1] % 16 * 4 + data[2] / 64), Symbol(data[2] % 64)] + Encode(data[3..])
  }

  /** The decoder's state inside a group of four symbols: how many it has seen, the bits it still
      holds, and the padding since the last symbol. */
  datatype Quad = Quad(seen: nat, bits: nat, pads: nat) {
    ghost predicate Valid() {
      seen < 4 && bits < (if seen == 0 then 1 else if seen == 1 then 64 else if seen == 2 then 16 else 4)
    }
  }

  const START := Quad(0, 0, 0)

  function Prepend(b: Byte, rest: Option<seq<Byte>>): Option<seq<Byte>> {
    match rest case None => None case Some(s) => Some([b] + s)
  }

  /** The lenient decoder: characters outside the alphabet are skipped, sufficient padding ends the
      input, and an incomplete last group is an error. */
  function Decode(text: string, q: Quad): Option<seq<Byte>>
    requires q.Valid()
  {
    if text == "" then (if q.seen == 0 then Some([]) else None)
    else if text[0] == '=' then
      if q.seen < 2 then Decode(text[1..], q)
      else if q.seen + q.pads + 1 >= 4 then Some([])
      else Decode(text[1..], q.(pads := q.pads + 1))
    else match Value(text[0])
      case None => Decode(text[1..], q)
      case Some(v) =>
        if q.seen == 0 then Decode(text[1..], Quad(1, v, 0))
        else if q.seen == 1 then Prepend(q.bits * 4 + v / 16, Decode(text[1..], Quad(2, v % 16, 0)))
        else if q.seen == 2 then Prepend(q.bits * 16 + v / 4, Decode(text[1..], Quad(3, v % 4, 0)))
        else Prepend(q.bits * 64 + v, Decode(text[1..], START))
  }

  /** A letter, digit, plus or slash, or padding. */
  predicate IsEssential(c: char) {
    'A' <= c <= 'Z' || 'a' <= c <= 'z' || '0' <= c <= '9' || c == '+' || c == '/' || c == '='
  }

  function Essential(text: string): string {
    if text == "" then "" else (if IsEssential(text[0]) then [text[0]] else []) + Essential(text[1..])
  }

  ghost predicate DecodeAlike(a: string, b: string) {
    forall q: Quad :: q.Valid() ==> Decode(a, q) == Decode(b, q)
  }

  lemma PrependAlike(c: char, a: string, b: string)
    requires DecodeAlike(a, b)
    ensures DecodeAlike([c] + a, [c] + b)
  {
    assert ([c] + a)[1..] == a && ([c] + b)[1..] == b;
    forall q: Quad | q.Valid()
      ensures Decode([c] + a, q) == Decode([c] + b, q)
    {
      assert q.(pads := q.pads + 1).Valid();
      if Value(c).Some? {
        DecodeFirst([c] + a, Value(c).value, q);
        DecodeFirst([c] + b, Value(c).value, q);
      }
    }
  }

  /** The decoder skips every character that is neither in the alphabet of RFC 4648, section 4, nor padding. */
  lemma {:induction false} DecoderSkips(text: string)
    ensures DecodeAlike(text, Essential(text))
  {
    if text != "" {
      var c, rest := text[0], Essential(text[1..]);
      DecoderSkips(text[1..]);
      assert text == [c] + text[1..] && [] + rest == rest;
      if IsEssential(c) {
        PrependAlike(c, text[1..], rest);
      } else {
        assert Value(c) == None;
      }
    }
  }

  lemma SymbolValue(n: Sextet)
    ensures Value(Symbol(n)) == Some(n) && Symbol(n) != '='
  {
  }

  /** One symbol consumed. */
  lemma DecodeSymbol(n: Sextet, rest: string, q: Quad)
    requires q.Valid()
    ensures Decode([Symbol(n)] + rest, q) ==
      if q.seen == 0 then Decode(rest, Quad(1, n, 0))
      else if q.seen == 1 then Prepend(q.bits * 4 + n / 16, Decode(rest, Quad(2, n % 16, 0)))
      else if q.seen == 2 then Prepend(q.bits * 16 + n / 4, Decode(rest, Quad(3, n % 4, 0)))
      else Prepend(q.bits * 64 + n, Decode(rest, START))
  {
    SymbolValue(n);
    DecodeFirst([Symbol(n)] + rest, n, q);
    assert ([Symbol(n)] + rest)[1..] == rest;
  }

  lemma DecodeFirst(text: string, n: Sextet, q: Quad)
    requires q.Valid() && text != "" && text[0] != '=' && Value(text[0]) == Some(n)
    ensures Decode(text, q) ==
      if q.seen == 0 then Decode(text[1..], Quad(1, n, 0))
      else if q.seen == 1 then Prepend(q.bits * 4 + n / 16, Decode(text[1..], Quad(2, n % 16, 0)))
      else if q.seen == 2 then Prepend(q.bits * 16 + n / 4, Decode(text[1..], Quad(3, n % 4, 0)))
      else Prepend(q.bits * 64 + n, Decode(text[1..], START))
  {
  }

  lemma Regroup(x: Byte, y: Byte, z: Byte)
    ensures
      var a, b, c, d := x / 4, x % 4 * 16 + y / 16, y % 16 * 4 + z / 64, z % 64;
      a * 4 + b / 16 == x && b % 16 * 16 + c / 4 == y && c % 4 * 64 + d == z
  {
  }

  lemma OneByteRoundTrip(x: Byte)
    ensures Decode(Encode([x]), START) == Some([x])
  {
    var a, b := x / 4, x % 4 * 16;
    Regroup(x, 0, 0);
    assert Encode([x]) == [Symbol(a)] + ([Symbol(b)] + "==");
    DecodeSymbol(a, [Symbol(b)] + "==", START);
    DecodeSymbol(b, "==", Quad(1, a, 0));
    assert "=="[1..] == "=" && Decode("=", Quad(2, b % 16, 1)) == Some([]);
    assert [x] + [] == [x];
  }

  lemma TwoBytesRoundTrip(x: Byte, y: Byte)
    ensures Decode(Encode([x, y]), START) == Some([x, y])
  {
    var a, b, c := x / 4, x % 4 * 16 + y / 16, y % 16 * 4;
    Regroup(x, y, 0);
    assert Encode([x, y]) == [Symbol(a)] + ([Symbol(b)] + ([Symbol(c)] + "="));
    DecodeSymbol(a, [Symbol(b)] + ([Symbol(c)] + "="), START);
    DecodeSymbol(b, [Symbol(c)] + "=", Quad(1, a, 0));
    DecodeSymbol(c, "=", Quad(2, b % 16, 0));
    assert [x] + ([y] + []) == [x, y];
  }

  lemma DecodeFour(a: Sextet, b: Sextet, c: Sextet, d: Sextet, rest: string)
    ensures Decode([Symbol(a), Symbol(b), Symbol(c), Symbol(d)] + rest, START)
         == Prepend(a * 4 + b / 16, Prepend(b % 16 * 16 + c / 4, Prepend(c % 4 * 64 + d, Decode(rest, START))))
  {
    var last := [Symbol(d)] + rest;
    var third := [Symbol(c)] + last;
    var second := [Symbol(b)] + third;
    assert [Symbol(a), Symbol(b), Symbol(c), Symbol(d)] + rest == [Symbol(a)] + second;
    DecodeSymbol(a, second, START);
    DecodeSymbol(b, third, Quad(1, a, 0));
    DecodeSymbol(c, last, Quad(2, b % 16, 0));
    DecodeSymbol(d, rest, Quad(3, c % 4, 0));
  }

  lemma ThreeBytesRoundTrip(x: Byte, y: Byte, z: Byte, rest: string)
    ensures
      var group := [Symbol(x / 4), Symbol(x % 4 * 16 + y / 16), Symbol(y % 16 * 4 + z / 64), Symbol(z % 64)];
      Decode(group + rest, START) == Prepend(x, Prepend(y, Prepend(z, Decode(rest, START))))
  {
    Regroup(x, y, z);
    DecodeFour(x / 4, x % 4 * 16 + y / 16, y % 16 * 4 + z / 64, z % 64, rest);
  }

  lemma {:induction false} Base64RoundTrip(data: seq<Byte>)
    ensures Decode(Encode(data), START) == Some(data)
  {
    if |data| == 1 {
      OneByteRoundTrip(data[0]);
      assert data == [data[0]];
    } else if |data| == 2 {
      TwoBytesRoundTrip(data[0], data[1]);
      assert data == [data[0], data[1]];
    } else if |data| >= 3 {
      Base64RoundTrip(data[3..]);
      ThreeBytesRoundTrip(data[0], data[1], data[2], Encode(data[3..]));
      assert data == [data[0]] + ([data[1]] + ([data[2]] + data[3..]));
    }
  }

  // ----- decimal integers -----

  function Digit(n: int): char
    requires 0 <= n < 10
  {
    ('0' as int + n) as char
  }

  function PrintNat(n: nat): string {
    if n < 10 then [Digit(n)] else PrintNat(n / 10) + [Digit(n % 10)]
  }

  function Print(n: int): string {
    if n < 0 then "-" + PrintNat(-n) else PrintNat(n)
  }

  /** No superfluous sign and no superfluous zero is printed. */
  lemma PrintedPlainly(n: int)
    ensures Print(n) != "" && (Print(n)[0] == '-' <==> n < 0)
    ensures n != 0 ==> Print(n)[if n < 0 then 1 else 0] != '0'
    ensures Print(0) == "0"
  {
    FirstDigit(if n < 0 then -n else n);
  }

  lemma {:induction false} FirstDigit(n: nat)
    ensures PrintNat(n) != "" && '0' <= PrintNat(n)[0] <= '9' && (n > 0 ==> PrintNat(n)[0] != '0')
  {
    if n >= 10 {
      FirstDigit(n / 10);
    }
  }

  predicate IsDigit(c: char) { '0' <= c <= '9' }

  /** Digits, with single underscores allowed between them. */
  function ParseNat(text: string, acc: nat): Option<nat> {
    if text == "" || !IsDigit(text[0]) then None
    else
      var v := acc * 10 + (text[0] as int - '0' as int);
      if |text| == 1 then Some(v)
      else if text[1] == '_' then ParseNat(text[2..], v)
      else ParseNat(text[1..], v)
  }

  predicate IsSpace(c: char) {
    9 <= c as int <= 13 || 28 <= c as int <= 32
  }

  function Strip(text: string): string
    decreases |text|
  {
    if text == "" then ""
    else if IsSpace(text[0]) then Strip(text[1..])
    else if IsSpace(text[|text| - 1]) then Strip(text[..|text| - 1])
    else text
  }

  function Negated(n: Option<int>): Option<int> {
    match n case None => None case Some(v) => Some(-v)
  }

  /** The integer literal of the language: surrounding white space, one sign, digits. */
  function Parse(text: string): Option<int> {
    var t := Strip(text);
    if t != "" && t[0] == '-' then Negated(ParseNat(t[1..], 0))
    else if t != "" && t[0] == '+' then ParseNat(t[1..], 0)
    else ParseNat(t, 0)
  }

  // ----- what is an integer literal -----

  /** Digits, and single underscores between digits. */
  predicate Grouped(text: string) {
    && text != "" && IsDigit(text[0]) && IsDigit(text[|text| - 1])
    && (forall i :: 0 <= i < |text| ==> IsDigit(text[i]) || text[i] == '_')
    && (forall i :: 0 <= i < |text| - 1 ==> IsDigit(text[i]) || IsDigit(text[i + 1]))
  }

  /** The number that the digits of a text make behind `acc`. */
  function NumberOf(text: string, acc: int): int {
    if text == "" then acc
    else NumberOf(text[1..], if IsDigit(text[0]) then acc * 10 + (text[0] as int - '0' as int) else acc)
  }

  lemma {:induction false} ParsesGrouped(text: string, acc: nat)
    ensures ParseNat(text, acc) == if Grouped(text) then Some(NumberOf(text, acc)) else None
    decreases |text|
  {
    if text != "" && IsDigit(text[0]) && |text| > 1 {
      var v, rest := acc * 10 + (text[0] as int - '0' as int), text[1..];
      if text[1] == '_' {
        ParsesGrouped(text[2..], v);
        assert rest[1..] == text[2..];
        assert NumberOf(text, acc) == NumberOf(rest, v) == NumberOf(text[2..], v);
        GroupedAfter(text, 2);
      } else {
        ParsesGrouped(rest, v);
        GroupedAfter(text, 1);
      }
    }
  }

  lemma GroupedAfter(text: string, k: nat)
    requires 1 <= k <= 2 <= |text| && IsDigit(text[0])
    requires if k == 1 then text[1] != '_' else text[1] == '_'
    ensures Grouped(text) <==> Grouped(text[k..])
  {
    var rest := text[k..];
    assert forall i :: 0 <= i < |rest| ==> rest[i] == text[k + i];
    if Grouped(rest) {
      assert rest[|rest| - 1] == text[|text| - 1];
      forall i | 0 <= i < |text|
        ensures IsDigit(text[i]) || text[i] == '_'
        ensures i < |text| - 1 ==> IsDigit(text[i]) || IsDigit(text[i + 1])
      {
        assert i >= k ==> text[i] == rest[i - k];
        assert i >= k && i < |text| - 1 ==> text[i + 1] == rest[i + 1 - k];
      }
    }
    if Grouped(text) {
      assert k == 2 ==> |text| > 2;
      assert IsDigit(text[k]);
    }
  }

  /** White space: tab to carriage return, the four separators, or the blank. */
  predicate Blank(c: char) { c == ' ' || 9 <= c as int <= 13 || 28 <= c as int <= 31 }

  /** The part from i to j is what white space surrounds. */
  predicate SpacesAround(text: string, i: nat, j: nat) {
    && i <= j <= |text|
    && (forall k :: 0 <= k < |text| && (k < i || j <= k) ==> Blank(text[k]))
    && (i < j ==> !Blank(text[i]) && !Blank(text[j - 1]))
  }

  lemma {:induction false} StripSpaces(text: string) returns (i: nat, j: nat)
    ensures SpacesAround(text, i, j) && Strip(text) == text[i..j]
    decreases |text|
  {
    i, j := 0, |text|;
    if text != "" && IsSpace(text[0]) {
      i, j := StripSpaces(text[1..]);
      assert text[1..][i..j] == text[i + 1..j + 1];
      assert forall k :: 1 <= k < |text| ==> text[k] == text[1..][k - 1];
      i, j := i + 1, j + 1;
    } else if text != "" && IsSpace(text[|text| - 1]) {
      i, j := StripSpaces(text[..|text| - 1]);
      assert forall k :: 0 <= k < |text| - 1 ==> text[k] == text[..|text| - 1][k];
    } else {
      assert text[0..|text|] == text;
    }
  }

  /** A text is an integer when, but for white space around it, it is digits with single underscores between
      them behind at most one sign; and then it is that number. */
  lemma ParsesLiteral(text: string) returns (i: nat, j: nat)
    ensures SpacesAround(text, i, j)
    ensures
      var t := text[i..j];
      var signed := t != "" && (t[0] == '-' || t[0] == '+');
      var body := if signed then t[1..] else t;
      Parse(text) == if !Grouped(body) then None
                     else Some(if signed && t[0] == '-' then -NumberOf(body, 0) else NumberOf(body, 0))
  {
    i, j := StripSpaces(text);
    var t := text[i..j];
    ParsesGrouped(if t != "" && (t[0] == '-' || t[0] == '+') then t[1..] else t, 0);
  }

  lemma {:induction false} ParseSnoc(text: string, acc: nat, d: int)
    requires ParseNat(text, acc).Some? && 0 <= d < 10
    ensures ParseNat(text + [Digit(d)], acc) == Some(ParseNat(text, acc).value * 10 + d)
  {
    var v := acc * 10 + (text[0] as int - '0' as int);
    var longer := text + [Digit(d)];
    if |text| == 1 {
      assert longer[1..] == [Digit(d)];
    } else if text[1] == '_' {
      ParseSnoc(text[2..], v, d);
      assert longer[2..] == text[2..] + [Digit(d)];
    } else {
      ParseSnoc(text[1..], v, d);
      assert longer[1..] == text[1..] + [Digit(d)];
    }
  }

  lemma {:induction false} NatRoundTrip(n: nat)
    ensures ParseNat(PrintNat(n), 0) == Some(n)
    ensures PrintNat(n) != "" && forall i :: 0 <= i < |PrintNat(n)| ==> IsDigit(PrintNat(n)[i])
  {
    if n >= 10 {
      NatRoundTrip(n / 10);
      ParseSnoc(PrintNat(n / 10), 0, n % 10);
    }
  }

  lemma IntRoundTrip(n: int)
    ensures Parse(Print(n)) == Some(n)
    ensures forall i :: 0 <= i < |Print(n)| ==> Print(n)[i] as int < 128
  {
    NatRoundTrip(if n < 0 then -n else n);
    assert Strip(Print(n)) == Print(n);
    if n < 0 {
      assert Print(n)[1..] == PrintNat(-n);
    }
  }

  // ----- cursors -----

  datatype Result<T> = Ok(value: T) | ValueError

  /** The UTF-8 bytes of a string of ASCII characters. */
  function Ascii(text: string): seq<Byte>
    requires forall i :: 0 <= i < |text| ==> text[i] as int < 128
  {
    seq(|text|, i requires 0 <= i < |text| => text[i] as int)
  }

  function EncodeCursor(lastId: int): string {
    IntRoundTrip(lastId);
    Encode(Ascii(Print(lastId)))
  }

  /** Bytes outside ASCII are an error. */
  function DecodeCursor(cursor: string): Result<int> {
    if exists i :: 0 <= i < |cursor| && cursor[i] as int >= 128 then ValueError
    else match Decode(cursor, START)
      case None => ValueError
      case Some(data) =>
        if exists i :: 0 <= i < |data| && data[i] >= 128 then ValueError
        else match Parse(seq(|data|, i requires 0 <= i < |data| => data[i] as char))
          case None => ValueError
          case Some(n) => Ok(n)
  }

  lemma {:induction false} EncodedIsAscii(data: seq<Byte>)
    ensures forall i :: 0 <= i < |Encode(data)| ==> Encode(data)[i] as int < 128
  {
    if |data| >= 3 {
      EncodedIsAscii(data[3..]);
    }
  }

  /** Decoding an encoded cursor gives back the id, for every integer. */
  lemma CursorRoundTrip(n: int)
    ensures DecodeCursor(EncodeCursor(n)) == Ok(n)
  {
    IntRoundTrip(n);
    var data := Ascii(Print(n));
    EncodedIsAscii(data);
    Base64RoundTrip(data);
    assert seq(|data|, i requires 0 <= i < |data| => data[i] as char) == Print(n);
  }

  /** When a cursor is refused: for a character outside ASCII, an incomplete group of four, or content that is
      not ASCII text or no integer. Whatever the decoder skips makes no difference. */
  lemma RefusedCursor(cursor: string)
    ensures
      var data := Decode(Essential(cursor), START);
      var content := if data.Some? then data.value else [];
      DecodeCursor(cursor).ValueError? <==>
        || !(forall i :: 0 <= i < |cursor| ==> cursor[i] as int <= 127)
        || data.None?
        || !(forall i :: 0 <= i < |content| ==> content[i] <= 127)
        || Parse(seq(|content|, i requires 0 <= i < |content| => content[i] as char)).None?
  {
    DecoderSkips(cursor);
    assert START.Valid();
  }

  /** So different ids have different cursors, and no cursor is empty. */
  lemma CursorsAreDistinct(m: int, n: int)
    ensures EncodeCursor(m) == EncodeCursor(n) ==> m == n
    ensures EncodeCursor(n) != ""
  {
    CursorRoundTrip(m);
    CursorRoundTrip(n);
  }
}
