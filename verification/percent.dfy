/**
 The App SDK's addresses: percent-encoding and its reader, the query string, the gateway paths
 built from both, and the check every gateway path passes (RFC 3986 sections 2.1 and 2.3).

 Text is UTF-8, one octet a character, as the source encodes and decodes it.
 */
module Percent {
  import opened Wrappers

  type Octet = c: char | c < '\U{0100}' witness 'a'
  type Text = seq<Octet>

  // ----- one value

  /** A letter, a digit or one of `-_.~`: RFC 3986's unreserved characters. */
  predicate IsUnreserved(c: char) {
    IsAlphanumeric(c) || c == '-' || c == '_' || c == '.' || c == '~'
  }

  predicate IsAlphanumeric(c: char) {
    IsAlphabetic(c) || '0' <= c <= '9'
  }

  predicate IsAlphabetic(c: char) {
    'a' <= c <= 'z' || 'A' <= c <= 'Z'
  }

  function HexDigit(n: int): Octet
    requires 0 <= n < 16
  {
    if n < 10 then '0' + n as char else 'A' + (n - 10) as char
  }

  function Escaped(c: Octet): Text {
    ['%', HexDigit(c as int / 16), HexDigit(c as int % 16)]
  }

  function EncodedOctet(c: Octet): Text {
    if IsUnreserved(c) then [c] else Escaped(c)
  }

  function EncodeOf(value: Text): Text {
    if value == [] then [] else EncodedOctet(value[0]) + EncodeOf(value[1..])
  }

  lemma EncodeAt(value: Text, i: nat, out: Text)
    requires i < |value|
    ensures out + EncodeOf(value[i..]) == out + EncodedOctet(value[i]) + EncodeOf(value[i + 1..])
  {
    assert value[i..][1..] == value[i + 1..];
    Join3(out, EncodedOctet(value[i]), EncodeOf(value[i + 1..]));
    hide EncodedOctet;
  }

  method Encode(value: Text) returns (out: Text)
    ensures out == EncodeOf(value)
  {
    hide EncodeOf, Escaped;
    out := [];
    for i := 0 to |value|
      invariant EncodeOf(value) == out + EncodeOf(value[i..])
    {
      EncodeAt(value, i, out);
      if IsUnreserved(value[i]) {
        out := out + [value[i]];
      } else {
        out := out + Escaped(value[i]);
      }
    }
    NothingLeft(value);
  }

  function HexValue(c: Octet): Option<int> {
    if '0' <= c <= '9' then Some(c as int - '0' as int)
    else if 'a' <= c <= 'f' then Some(c as int - 'a' as int + 10)
    else if 'A' <= c <= 'F' then Some(c as int - 'A' as int + 10)
    else None
  }

  /** Two characters as one octet in base 16; a `+` in front of a digit is taken as its sign. */
  function Radix16(high: Octet, low: Octet): (octet: Option<Octet>)
  {
    var l := HexValue(low);
    if l == None then None
    else if high == '+' then Some(l.value as char)
    else
      var h := HexValue(high);
      if h == None then None else Some((h.value * 16 + l.value) as char)
  }

  /** The first octet a text decodes to, and how many characters stand for it. */
  function FirstDecoded(text: Text): (Octet, nat)
    requires text != []
  {
    if text[0] == '+' then (' ', 1)
    else if text[0] != '%' || |text| < 3 then (text[0], 1)
    else match Radix16(text[1], text[2])
      case Some(c) => (c, 3)
      case None => ('%', 1)
  }

  function DecodeOf(text: Text): Text {
    if text == [] then []
    else
      var (octet, n) := FirstDecoded(text);
      [octet] + DecodeOf(text[n..])
  }

  lemma DecodeAt(text: Text, i: nat, out: Text)
    requires i < |text|
    ensures i + FirstDecoded(text[i..]).1 <= |text|
    ensures out + DecodeOf(text[i..]) ==
      out + [FirstDecoded(text[i..]).0] + DecodeOf(text[i + FirstDecoded(text[i..]).1..])
  {
    var (octet, n) := FirstDecoded(text[i..]);
    assert text[i..][n..] == text[i + n..];
    Join3(out, [octet], DecodeOf(text[i + n..]));
    hide FirstDecoded;
  }

  lemma Join3(a: Text, b: Text, c: Text)
    ensures a + b + c == a + (b + c)
  {}

  method Decode(text: Text) returns (out: Text)
    ensures out == DecodeOf(text)
  {
    hide DecodeOf, Radix16;
    out := [];
    var i := 0;
    while i < |text|
      invariant 0 <= i <= |text|
      invariant DecodeOf(text) == out + DecodeOf(text[i..])
    {
      DecodeAt(text, i, out);
      var octet := text[i];
      ghost var from := i;
      if text[i] == '+' {
        octet := ' ';
      } else if text[i] == '%' && i + 3 <= |text| {
        match Radix16(text[i + 1], text[i + 2]) {
          case Some(c) =>
            octet := c;
            i := i + 2;
          case None =>
        }
      }
      out := out + [octet];
      i := i + 1;
      assert FirstDecoded(text[from..]) == (octet, i - from);
    }
    NothingLeft(text);
  }

  lemma NothingLeft(text: Text)
    ensures DecodeOf(text[|text|..]) == []
    ensures EncodeOf(text[|text|..]) == []
  {}

  lemma OctetReadsBack(c: Octet, rest: Text)
    ensures DecodeOf(EncodedOctet(c) + rest) == [c] + DecodeOf(rest)
  {
    var text := EncodedOctet(c) + rest;
    if IsUnreserved(c) {
      assert text[1..] == rest;
    } else {
      assert text[3..] == rest;
      HexReadsBack(c as int / 16);
      HexReadsBack(c as int % 16);
    }
  }

  lemma HexReadsBack(n: int)
    requires 0 <= n < 16
    ensures HexValue(HexDigit(n)) == Some(n) && HexDigit(n) != '+'
  {}

  /** Every value decodes back from its encoding, in front of whatever follows it. */
  lemma {:induction false} EncodedReadsBack(value: Text, rest: Text)
    ensures DecodeOf(EncodeOf(value) + rest) == value + DecodeOf(rest)
  {
    hide EncodedOctet, DecodeOf;
    if value == [] {
      assert EncodeOf(value) + rest == rest;
      assert value + DecodeOf(rest) == DecodeOf(rest);
    } else {
      var tail := EncodeOf(value[1..]) + rest;
      assert EncodeOf(value) + rest == EncodedOctet(value[0]) + tail;
      OctetReadsBack(value[0], tail);
      EncodedReadsBack(value[1..], rest);
      assert value + DecodeOf(rest) == [value[0]] + (value[1..] + DecodeOf(rest));
    }
  }

  lemma DecodeUndoesEncode(value: Text)
    ensures DecodeOf(EncodeOf(value)) == value
  {
    EncodedReadsBack(value, []);
    assert EncodeOf(value) + [] == EncodeOf(value);
  }

  /**
   What an encoded value may hold: unreserved characters and `%`, nothing that ends a part of an
   address.
   */
  lemma {:induction false} EncodedIsPlain(value: Text)
    ensures forall c | c in EncodeOf(value) :: IsUnreserved(c) || c == '%'
    ensures EncodeOf(value) == [] <==> value == []
  {
    if value != [] {
      EncodedIsPlain(value[1..]);
      HexIsPlain(value[0] as int / 16);
      HexIsPlain(value[0] as int % 16);
    }
  }

  lemma HexIsPlain(n: int)
    requires 0 <= n < 16
    ensures IsUnreserved(HexDigit(n))
  {}

  const UPPER := "0123456789ABCDEF"
  const LOWER := "0123456789abcdef"

  /**
   One octet in RFC 3986's form: a letter, a digit or one of `-._~` stays, every other is a percent
   sign and the two upper-case hexadecimal digits of its value.
   */
  lemma OctetInForm(c: Octet)
    ensures var code := c as int;
      EncodeOf([c]) ==
        if 65 <= code <= 90 || 97 <= code <= 122 || 48 <= code <= 57 || code in {45, 46, 95, 126} then [c]
        else ['%', UPPER[code / 16], UPPER[code % 16]]
  {
    assert [c][1..] == [] && EncodedOctet(c) + [] == EncodedOctet(c);
    UpperDigit(c as int / 16);
    UpperDigit(c as int % 16);
    hide HexDigit;
  }

  lemma UpperDigit(n: int)
    requires 0 <= n < 16
    ensures HexDigit(n) == UPPER[n]
  {}

  /** The hexadecimal digits of either case are read at their value, and nothing else is a digit. */
  lemma DigitsExactly(c: Octet, n: nat)
    ensures HexValue(c) == Some(n) <==> n < 16 && (c == UPPER[n] || c == LOWER[n])
  {}

  /** An escape of two hexadecimal digits is read as its octet, in front of anything. */
  lemma EscapeReads(high: nat, low: nat, lower: bool, rest: Text)
    requires high < 16 && low < 16
    ensures var digits := if lower then LOWER else UPPER;
      DecodeOf(['%', digits[high], digits[low]] + rest) == [(16 * high + low) as char] + DecodeOf(rest)
  {
    var digits := if lower then LOWER else UPPER;
    DigitsExactly(digits[high], high);
    DigitsExactly(digits[low], low);
    NoPlus(digits[high], high);
    hide HexValue, UPPER, LOWER;
    TwoDigitsRead(digits[high], digits[low], high, low, rest);
  }

  lemma NoPlus(c: Octet, n: nat)
    requires HexValue(c) == Some(n)
    ensures c != '+'
  {}

  lemma TwoDigitsRead(h: Octet, l: Octet, high: nat, low: nat, rest: Text)
    requires high < 16 && low < 16 && HexValue(h) == Some(high) && HexValue(l) == Some(low) && h != '+'
    ensures DecodeOf(['%', h, l] + rest) == [(16 * high + low) as char] + DecodeOf(rest)
  {
    hide HexValue;
    var text := ['%', h, l] + rest;
    assert text[3..] == rest && text[1] == h && text[2] == l;
    assert FirstDecoded(text) == ((16 * high + low) as char, 3);
  }

  /**
   A percent sign stays as written exactly when it is not followed by a hexadecimal digit, or a plus
   sign, and another hexadecimal digit.
   */
  lemma BrokenEscapeStays(rest: Text)
    ensures FirstDecoded(['%'] + rest) == ('%', 1) <==>
      |rest| < 2 || HexValue(rest[1]) == None || (rest[0] != '+' && HexValue(rest[0]) == None)
    ensures FirstDecoded(['+'] + rest) == (' ', 1)
  {
    hide HexValue;
  }

  // ----- splitting

  /** The parts of a text between the separators, one more than there are separators. */
  function Split(text: Text, sep: Octet): (parts: seq<Text>)
    ensures parts != []
  {
    if text == [] then [[]]
    else
      var later := Split(text[1..], sep);
      if text[0] == sep then [[]] + later else [[text[0]] + later[0]] + later[1..]
  }

  /** What comes before the first separator and what comes after it, when there is one. */
  function SplitOnce(text: Text, sep: Octet): Option<(Text, Text)> {
    if text == [] then None
    else if text[0] == sep then Some(([], text[1..]))
    else match SplitOnce(text[1..], sep) case None => None case Some((a, b)) => Some(([text[0]] + a, b))
  }

  lemma {:induction false} SplitsOne(part: Text, sep: Octet)
    requires sep !in part
    ensures Split(part, sep) == [part] && SplitOnce(part, sep) == None
  {
    if part != [] {
      SplitsOne(part[1..], sep);
      assert [part[0]] + part[1..] == part;
    }
  }

  lemma {:induction false} SplitsFirst(part: Text, rest: Text, sep: Octet)
    requires sep !in part
    ensures Split(part + [sep] + rest, sep) == [part] + Split(rest, sep)
    ensures SplitOnce(part + [sep] + rest, sep) == Some((part, rest))
  {
    var text := part + [sep] + rest;
    if part == [] {
      assert text[1..] == rest;
    } else {
      assert text[1..] == part[1..] + [sep] + rest;
      SplitsFirst(part[1..], rest, sep);
      assert [part[0]] + part[1..] == part;
      assert [part[0]] + ([part[1..]] + Split(rest, sep))[0] == part;
      assert ([part[1..]] + Split(rest, sep))[1..] == Split(rest, sep);
    }
  }

  // ----- the query string

  type Pair = (Text, Text)

  /** `name=value`, both encoded. */
  function PairText(pair: Pair): Text {
    EncodeOf(pair.0) + ['='] + EncodeOf(pair.1)
  }

  function QueryText(pairs: seq<Pair>): Text {
    if pairs == [] then []
    else if |pairs| == 1 then PairText(pairs[0])
    else PairText(pairs[0]) + ['&'] + QueryText(pairs[1..])
  }

  function PairOf(part: Text): Pair {
    match SplitOnce(part, '=')
    case Some((name, value)) => (DecodeOf(name), DecodeOf(value))
    case None => (DecodeOf(part), [])
  }

  function PairsIn(parts: seq<Text>): seq<Pair> {
    if parts == [] then []
    else (if parts[0] == [] then [] else [PairOf(parts[0])]) + PairsIn(parts[1..])
  }

  /** The query string as pairs. */
  function PairsOf(query: Text): seq<Pair> {
    PairsIn(Split(query, '&'))
  }

  lemma PairReadsBack(pair: Pair)
    ensures PairText(pair) != [] && '&' !in PairText(pair) && '=' in PairText(pair)
    ensures PairOf(PairText(pair)) == pair
    ensures forall c | c in PairText(pair) :: IsUnreserved(c) || c == '%' || c == '='
  {
    EncodedIsPlain(pair.0);
    EncodedIsPlain(pair.1);
    assert !IsUnreserved('=') && !IsUnreserved('&');
    hide EncodeOf, DecodeOf, IsUnreserved, SplitOnce;
    DecodeUndoesEncode(pair.0);
    DecodeUndoesEncode(pair.1);
    assert '=' !in EncodeOf(pair.0);
    SplitsFirst(EncodeOf(pair.0), EncodeOf(pair.1), '=');
  }

  /** Every list of pairs reads back from the query it is written as, the empty names and values too. */
  lemma {:induction false} QueryReadsBack(pairs: seq<Pair>)
    ensures PairsOf(QueryText(pairs)) == pairs
    ensures forall c | c in QueryText(pairs) :: IsUnreserved(c) || c == '%' || c == '=' || c == '&'
  {
    if pairs == [] {
    } else {
      var first := PairText(pairs[0]);
      PairReadsBack(pairs[0]);
      hide EncodeOf, DecodeOf, IsUnreserved, PairOf, PairText, Split;
      if |pairs| == 1 {
        SplitsOne(first, '&');
        assert PairsIn([first]) == [PairOf(first)] + PairsIn([]);
      } else {
        QueryReadsBack(pairs[1..]);
        SplitsFirst(first, QueryText(pairs[1..]), '&');
        var parts := Split(QueryText(pairs[1..]), '&');
        assert ([first] + parts)[1..] == parts;
      }
    }
  }

  lemma {:induction false} PairsTogether(a: seq<Text>, b: seq<Text>)
    ensures PairsIn(a + b) == PairsIn(a) + PairsIn(b)
  {
    hide PairOf;
    if a == [] {
      assert a + b == b;
    } else {
      assert (a + b)[1..] == a[1..] + b;
      PairsTogether(a[1..], b);
    }
  }

  /** Any query is read part by part, an empty part being none. */
  lemma PartsReadApart(part: Text, rest: Text)
    requires '&' !in part
    ensures PairsOf(part + ['&'] + rest) == PairsOf(part) + PairsOf(rest)
    ensures PairsOf([]) == []
  {
    SplitsFirst(part, rest, '&');
    SplitsOne(part, '&');
    PairsTogether([part], Split(rest, '&'));
    SplitsOne([], '&');
    hide Split, PairOf;
    var none: Text := [];
    assert [none][1..] == [];
  }

  /** A part without an equals sign is a name without a value, one with it a name and the rest. */
  lemma PartReads(name: Text, value: Text)
    requires '&' !in name && '=' !in name && name != [] && '&' !in value
    ensures PairsOf(name) == [(DecodeOf(name), [])]
    ensures PairsOf(name + ['='] + value) == [(DecodeOf(name), DecodeOf(value))]
  {
    hide *;
    OnePart(name);
    OnePart(name + ['='] + value);
    SplitsOne(name, '=');
    SplitsFirst(name, value, '=');
    assert PairOf(name) == (DecodeOf(name), []) by { PairIs(name); }
    assert PairOf(name + ['='] + value) == (DecodeOf(name), DecodeOf(value)) by { PairIs(name + ['='] + value); }
  }

  lemma PairIs(part: Text)
    ensures PairOf(part) == match SplitOnce(part, '=')
      case Some((name, value)) => (DecodeOf(name), DecodeOf(value))
      case None => (DecodeOf(part), [])
  {}

  lemma OnePart(part: Text)
    requires '&' !in part && part != []
    ensures PairsOf(part) == [PairOf(part)]
  {
    SplitsOne(part, '&');
    hide Split, PairOf;
    assert [part][1..] == [];
    assert PairsIn([part]) == [PairOf(part)] + PairsIn([part][1..]);
  }

  // ----- gateway paths

  datatype Why = NotAbsolute | BadCharacter | DotSegment | NotACollection | NotAnEntity

  predicate IsDots(segment: Text) {
    segment == ['.'] || segment == ['.', '.'] || IsEncodedDots(segment)
  }

  /** `%2e%2e`, in either case. */
  predicate IsEncodedDots(segment: Text) {
    && |segment| == 6 && segment[0] == segment[3] == '%' && segment[1] == segment[4] == '2'
    && (segment[2] == 'e' || segment[2] == 'E') && (segment[5] == 'e' || segment[5] == 'E')
  }

  predicate DoubleSlash(text: Text) {
    exists i | 0 <= i < |text| - 1 :: text[i] == '/' && text[i + 1] == '/'
  }

  predicate HasDots(path: Text) {
    exists s | s in Split(path, '/') :: IsDots(s)
  }

  /** `path` as a gateway path, or why it is none. */
  function Checked(path: Text): Result<Text, Why> {
    var bare := Split(path, '?')[0];
    if path == [] || path[0] != '/' then Err(NotAbsolute)
    else if DoubleSlash(bare) || '\\' in path || '#' in path then Err(BadCharacter)
    else if HasDots(bare) then Err(DotSegment)
    else Ok(path)
  }

  /** Whether a text's characters from `i` to `j` are one of its segments: between two slashes or the ends. */
  predicate IsSegment(text: Text, i: int, j: int) {
    && 0 <= i <= j <= |text| && (i == 0 || text[i - 1] == '/') && (j == |text| || text[j] == '/')
    && '/' !in text[i..j]
  }

  ghost predicate HasSegment(text: Text, s: Text) {
    exists i, j :: IsSegment(text, i, j) && text[i..j] == s
  }

  lemma {:induction false} PartsAreSegments(text: Text, s: Text)
    ensures s in Split(text, '/') <==> HasSegment(text, s)
  {
    var k := First(text, '/');
    var first := text[..k];
    if k == |text| {
      SplitsOne(text, '/');
      assert text[..k] == text;
      assert IsSegment(text, 0, |text|) && text[0..|text|] == text;
      assert forall n | 0 <= n < |text| :: text[n] in text;
    } else {
      var rest := text[k + 1..];
      assert text == first + ['/'] + rest;
      SplitsFirst(first, rest, '/');
      PartsAreSegments(rest, s);
      SegmentsBehind(text, k, s);
    }
  }

  function First(text: Text, sep: Octet): (k: nat)
    ensures k <= |text| && sep !in text[..k] && (k < |text| ==> text[k] == sep)
  {
    if text == [] || text[0] == sep then 0
    else
      var k := First(text[1..], sep);
      assert text[..k + 1] == [text[0]] + text[1..][..k];
      k + 1
  }

  lemma InFrontOfFirst(text: Text, sep: Octet)
    ensures Split(text, sep)[0] == text[..First(text, sep)]
  {
    var k := First(text, sep);
    if k == |text| {
      assert text[..k] == text;
      SplitsOne(text, sep);
    } else {
      assert text == text[..k] + [sep] + text[k + 1..];
      SplitsFirst(text[..k], text[k + 1..], sep);
    }
  }

  lemma DotsAre(s: Text)
    ensures IsDots(s) <==>
      s == "." || s == ".." || s == "%2e%2e" || s == "%2E%2e" || s == "%2e%2E" || s == "%2E%2E"
  {}

  /** A segment a gateway path may not hold: dots, encoded or not, or nothing between two slashes. */
  predicate BadSegment(text: Text, i: int, j: int)
    requires 0 <= i <= j <= |text|
  {
    var s := text[i..j];
    || s == "." || s == ".." || s == "%2e%2e" || s == "%2E%2e" || s == "%2e%2E" || s == "%2E%2E"
    || 0 < i == j < |text|
  }

  /**
   A path passes the check exactly when it starts with a slash, holds no backslash and no `#`, and
   every segment in front of its query names something: it is not one or two dots, two encoded dots
   in any case, or nothing between two slashes.
   */
  lemma CheckedExactly(path: Text)
    ensures Checked(path).Ok? ==> Checked(path).value == path
    ensures var bare := path[..First(path, '?')];
      Checked(path).Ok? <==>
        && path != [] && path[0] == '/' && '\\' !in path && '#' !in path
        && forall i, j | IsSegment(bare, i, j) :: !BadSegment(bare, i, j)
  {
    var bare := path[..First(path, '?')];
    InFrontOfFirst(path, '?');
    GoodSegments(bare);
    hide Split, HasDots, DoubleSlash, IsSegment, BadSegment, First;
  }

  lemma GoodSegments(bare: Text)
    ensures !DoubleSlash(bare) && !HasDots(bare) <==> forall i, j | IsSegment(bare, i, j) :: !BadSegment(bare, i, j)
  {
    if DoubleSlash(bare) || HasDots(bare) {
      BadIsThere(bare);
    } else {
      forall i, j | IsSegment(bare, i, j)
        ensures !BadSegment(bare, i, j)
      {
        if BadSegment(bare, i, j) {
          BadIsSeen(bare, i, j);
        }
      }
    }
  }

  lemma BadIsSeen(bare: Text, i: int, j: int)
    requires IsSegment(bare, i, j) && BadSegment(bare, i, j)
    ensures DoubleSlash(bare) || HasDots(bare)
  {
    var s := bare[i..j];
    PartsAreSegments(bare, s);
    DotsAre(s);
    hide Split, IsDots;
    if 0 < i == j < |bare| {
      assert bare[i - 1] == '/' && bare[i - 1 + 1] == '/';
    } else {
      assert HasSegment(bare, s);
    }
  }

  lemma BadIsThere(bare: Text)
    requires DoubleSlash(bare) || HasDots(bare)
    ensures exists i, j :: IsSegment(bare, i, j) && BadSegment(bare, i, j)
  {
    if DoubleSlash(bare) {
      var i :| 0 <= i < |bare| - 1 && bare[i] == '/' && bare[i + 1] == '/';
      assert IsSegment(bare, i + 1, i + 1) && BadSegment(bare, i + 1, i + 1);
    } else {
      var s :| s in Split(bare, '/') && IsDots(s);
      PartsAreSegments(bare, s);
      DotsAre(s);
      hide Split, IsDots;
      var i, j :| IsSegment(bare, i, j) && bare[i..j] == s;
      assert BadSegment(bare, i, j);
    }
  }

  // The segments are the one in front of the first slash and the segments behind it.
  lemma SegmentsBehind(text: Text, k: nat, s: Text)
    requires k < |text| && text[k] == '/' && '/' !in text[..k]
    ensures HasSegment(text, s) <==> s == text[..k] || HasSegment(text[k + 1..], s)
  {
    var rest := text[k + 1..];
    assert IsSegment(text, 0, k) && text[0..k] == text[..k];
    forall i, j | IsSegment(text, i, j)
      ensures || text[i..j] == text[..k]
              || (i > k && IsSegment(rest, i - k - 1, j - k - 1) && rest[i - k - 1..j - k - 1] == text[i..j])
    {
      if i <= k {
        assert forall n | 0 <= n < k :: text[n] == text[..k][n];
        assert forall n | i <= n < j :: text[n] == text[i..j][n];
      } else {
        assert rest[i - k - 1..j - k - 1] == text[i..j];
      }
    }
    forall i, j | IsSegment(rest, i, j)
      ensures IsSegment(text, i + k + 1, j + k + 1) && text[i + k + 1..j + k + 1] == rest[i..j]
    {
      assert text[i + k + 1..j + k + 1] == rest[i..j];
    }
  }

  predicate IsCollection(name: Text) {
    name != [] && IsAlphabetic(name[0]) && forall c | c in name[1..] :: IsAlphanumeric(c) || c == '_'
  }

  const COLLECTIONS: Text := "/ogc/features/collections/"
  const ITEMS: Text := "/items"
  const FILTER: Text := "filter"
  const FILTER_LANG: Text := "filter-lang"
  const CQL2_TEXT: Text := "cql2-text"

  /** The pairs a features read sends: the ones given, and a filter's language when it names none. */
  function Sent(query: seq<Pair>): seq<Pair> {
    if (exists p | p in query :: p.0 == FILTER) && !(exists p | p in query :: p.0 == FILTER_LANG)
    then query + [(FILTER_LANG, CQL2_TEXT)]
    else query
  }

  function FeaturesPath(collection: Text, query: seq<Pair>): Result<Text, Why> {
    if !IsCollection(collection) then Err(NotACollection)
    else
      var path := COLLECTIONS + collection + ITEMS;
      if Sent(query) == [] then Ok(path) else Ok(path + ['?'] + QueryText(Sent(query)))
  }

  // ----- the path put together pair by pair

  function Joined(texts: seq<Text>): Text {
    if texts == [] then []
    else if |texts| == 1 then texts[0]
    else texts[0] + ['&'] + Joined(texts[1..])
  }

  function Texts(pairs: seq<Pair>): seq<Text> {
    if pairs == [] then [] else Texts(pairs[..|pairs| - 1]) + [PairText(pairs[|pairs| - 1])]
  }

  lemma {:induction false} FirstText(pairs: seq<Pair>)
    requires pairs != []
    ensures Texts(pairs) == [PairText(pairs[0])] + Texts(pairs[1..]) && |Texts(pairs)| == |pairs|
  {
    hide PairText;
    if |pairs| > 1 {
      var before := pairs[..|pairs| - 1];
      FirstText(before);
      assert pairs[1..][..|pairs| - 2] == before[1..];
    } else {
      assert pairs[..0] == [] && pairs[1..] == [];
    }
  }

  lemma {:induction false} JoinedTexts(pairs: seq<Pair>)
    ensures Joined(Texts(pairs)) == QueryText(pairs)
  {
    hide PairText;
    if pairs != [] {
      FirstText(pairs);
      JoinedTexts(pairs[1..]);
      if |pairs| > 1 {
        FirstText(pairs[1..]);
      }
      assert Texts(pairs)[1..] == Texts(pairs[1..]);
    }
  }

  lemma TextsMore(pairs: seq<Pair>, pair: Pair)
    ensures Texts(pairs + [pair]) == Texts(pairs) + [PairText(pair)]
  {
    hide PairText;
    assert (pairs + [pair])[..|pairs|] == pairs;
  }

  lemma {:induction false} PlainStays(value: Text)
    requires forall c | c in value :: IsUnreserved(c)
    ensures EncodeOf(value) == value
  {
    if value != [] {
      PlainStays(value[1..]);
      assert value == [value[0]] + value[1..];
    }
  }

  lemma LanguageText()
    ensures PairText((FILTER_LANG, CQL2_TEXT)) == FILTER_LANG + ['='] + CQL2_TEXT
  {
    LanguageIsPlain();
    hide EncodeOf, FILTER_LANG, CQL2_TEXT;
  }

  lemma LanguageIsPlain()
    ensures EncodeOf(FILTER_LANG) == FILTER_LANG && EncodeOf(CQL2_TEXT) == CQL2_TEXT
  {
    hide EncodeOf;
    PlainStays(FILTER_LANG);
    PlainStays(CQL2_TEXT);
  }

  /**
   The features path as it is put together: the pairs in order, the default language, one `&`
   between two.
   */
  method BuildFeaturesPath(collection: Text, query: seq<Pair>) returns (made: Result<Text, Why>)
    ensures made == FeaturesPath(collection, query)
  {
    hide PairText, Texts, QueryText;
    if !IsCollection(collection) {
      return Err(NotACollection);
    }
    var pairs: seq<Text> := [];
    var filter, language := false, false;
    NoTexts();
    for i := 0 to |query|
      invariant pairs == Texts(query[..i])
      invariant filter <==> exists p | p in query[..i] :: p.0 == FILTER
      invariant language <==> exists p | p in query[..i] :: p.0 == FILTER_LANG
    {
      assert query[..i + 1] == query[..i] + [query[i]];
      TextsMore(query[..i], query[i]);
      var name := Encode(query[i].0);
      var value := Encode(query[i].1);
      assert name + ['='] + value == PairText(query[i]) by { PairTextIs(query[i]); }
      pairs := pairs + [name + ['='] + value];
      filter := filter || query[i].0 == FILTER;
      language := language || query[i].0 == FILTER_LANG;
    }
    assert query[..|query|] == query;
    if filter && !language {
      LanguageText();
      TextsMore(query, (FILTER_LANG, CQL2_TEXT));
      pairs := pairs + [FILTER_LANG + ['='] + CQL2_TEXT];
    }
    var path := COLLECTIONS + collection + ITEMS;
    assert pairs == Texts(Sent(query));
    JoinedTexts(Sent(query));
    SomeTexts(Sent(query));
    if pairs == [] {
      return Ok(path);
    }
    return Ok(path + ['?'] + Joined(pairs));
  }

  lemma NoTexts()
    ensures Texts([]) == []
  {}

  lemma SomeTexts(pairs: seq<Pair>)
    ensures Texts(pairs) == [] <==> pairs == []
  {
    hide PairText;
  }

  lemma PairTextIs(pair: Pair)
    ensures PairText(pair) == EncodeOf(pair.0) + ['='] + EncodeOf(pair.1)
  {}

  const ENTITIES: Text := "/ngsi-ld/v1/entities/"
  const ATTRS: Text := "/attrs"

  /** Whether the text holds a control character: C0, DEL, or C1 as its two octets. */
  predicate HasControl(text: Text) {
    || (exists c | c in text :: c < ' ' || c == '\U{007F}')
    || (exists i | 0 <= i < |text| - 1 :: text[i] == '\U{00C2}' && '\U{0080}' <= text[i + 1] <= '\U{009F}')
  }

  function EntityAttrsPath(id: Text): Result<Text, Why> {
    if id == [] || HasControl(id) then Err(NotAnEntity) else Ok(ENTITIES + EncodeOf(id) + ATTRS)
  }

  lemma {:induction false} SplitApart(a: Text, b: Text, sep: Octet)
    ensures Split(a + [sep] + b, sep) == Split(a, sep) + Split(b, sep)
  {
    var text := a + [sep] + b;
    if a == [] {
      assert text[1..] == b;
    } else {
      assert text[1..] == a[1..] + [sep] + b;
      SplitApart(a[1..], b, sep);
    }
  }

  lemma DotsApart(a: Text, b: Text)
    ensures HasDots(a + ['/'] + b) <==> HasDots(a) || HasDots(b)
  {
    SplitApart(a, b, '/');
    hide Split, IsDots;
  }

  lemma {:induction false} PartsAreOfTheText(text: Text, sep: Octet)
    ensures forall s, c | s in Split(text, sep) && c in s :: c in text
  {
    if text != [] {
      PartsAreOfTheText(text[1..], sep);
    }
  }

  lemma NoDotsWithoutDots(text: Text)
    requires '.' !in text && '%' !in text
    ensures !HasDots(text)
  {
    PartsAreOfTheText(text, '/');
    forall s | s in Split(text, '/')
      ensures !IsDots(s)
    {
      assert s != [] ==> s[0] in s;
    }
  }

  lemma SlashesApart(a: Text, b: Text)
    requires !DoubleSlash(a) && !DoubleSlash(b)
    requires a == [] || b == [] || a[|a| - 1] != '/' || b[0] != '/'
    ensures !DoubleSlash(a + b)
  {
    var text := a + b;
    forall i | 0 <= i < |text| - 1
      ensures !(text[i] == '/' && text[i + 1] == '/')
    {
      if i + 1 < |a| {
        assert !(a[i] == '/' && a[i + 1] == '/');
      } else if i >= |a| {
        assert !(b[i - |a|] == '/' && b[i - |a| + 1] == '/');
      }
    }
  }

  predicate IsPathChar(c: char) {
    IsAlphanumeric(c) || c == '_' || c == '-' || c == '/'
  }

  lemma PathChars(text: Text)
    requires forall c | c in text :: IsPathChar(c)
    ensures '?' !in text && '.' !in text && '%' !in text && '\\' !in text && '#' !in text
  {}

  lemma Collections()
    ensures forall c | c in COLLECTIONS :: IsPathChar(c)
    ensures !DoubleSlash(COLLECTIONS) && COLLECTIONS != [] && COLLECTIONS[0] == '/'
  {}

  lemma Items()
    ensures forall c | c in ITEMS :: IsPathChar(c)
    ensures !DoubleSlash(ITEMS) && ITEMS != []
  {}

  lemma Entities()
    ensures var root := ENTITIES[..|ENTITIES| - 1]; ENTITIES == root + ['/'] && forall c | c in root :: IsPathChar(c)
    ensures !DoubleSlash(ENTITIES) && ENTITIES[0] == '/'
  {}

  lemma Attrs()
    ensures ATTRS == ['/'] + ATTRS[1..] && forall c | c in ATTRS[1..] :: IsPathChar(c)
    ensures !DoubleSlash(ATTRS)
  {}

  lemma CollectionChars(name: Text)
    requires IsCollection(name)
    ensures forall c | c in name :: IsPathChar(c) && c != '/'
  {
    assert name == [name[0]] + name[1..];
    assert forall c | c in name :: c == name[0] || c in name[1..];
  }

  lemma NoSlashNoDouble(text: Text)
    requires '/' !in text
    ensures !DoubleSlash(text)
  {}

  // The path of a collection's items, without a query.
  lemma ItemsPath(collection: Text)
    requires IsCollection(collection)
    ensures var path := COLLECTIONS + collection + ITEMS;
      && '?' !in path && '\\' !in path && '#' !in path && !DoubleSlash(path) && !HasDots(path) && path[0] == '/'
  {
    Collections();
    Items();
    CollectionChars(collection);
    hide COLLECTIONS, ITEMS, IsPathChar, DoubleSlash, HasDots, IsCollection;
    var path := COLLECTIONS + collection + ITEMS;
    assert collection != [] by { NotEmpty(collection); }
    assert collection[0] in collection && collection[|collection| - 1] in collection;
    NoSlashNoDouble(collection);
    SlashesApart(COLLECTIONS, collection);
    var front := COLLECTIONS + collection;
    assert front[|front| - 1] == collection[|collection| - 1];
    SlashesApart(front, ITEMS);
    PathChars(path);
    NoDotsWithoutDots(path);
  }

  lemma NotEmpty(name: Text)
    requires IsCollection(name)
    ensures name != []
  {}

  /** The name of an Entity type: an ASCII letter, then letters, digits and `_`. */
  predicate TypeName(name: Text) {
    && |name| >= 1 && (65 <= name[0] as int <= 90 || 97 <= name[0] as int <= 122)
    && forall c | c in name[1..] ::
         65 <= c as int <= 90 || 97 <= c as int <= 122 || 48 <= c as int <= 57 || c as int == 95
  }

  lemma TypeNameIs(name: Text)
    ensures TypeName(name) <==> IsCollection(name)
  {}

  /** The pairs a server reads from the query of a path. */
  function PairsRead(path: Text): seq<Pair> {
    match SplitOnce(path, '?') case Some((_, query)) => PairsOf(query) case None => []
  }

  predicate Names(query: seq<Pair>, name: string) {
    exists p | p in query :: p.0 == name
  }

  lemma SentIs(query: seq<Pair>)
    ensures Sent(query)
      == if Names(query, "filter") && !Names(query, "filter-lang") then query + [("filter-lang", "cql2-text")]
         else query
  {}

  /**
   There is a features path exactly for the name of an Entity type. It passes the check, names the
   collection's items, and what is read from its query are the pairs given, with the language of a
   filter behind them exactly when a filter is given and no language.
   */
  lemma FeaturesPathCarriesItsQuery(collection: Text, query: seq<Pair>)
    ensures FeaturesPath(collection, query).Ok? <==> TypeName(collection)
    ensures TypeName(collection) ==>
      var path := FeaturesPath(collection, query).value;
      && Checked(path) == Ok(path)
      && Split(path, '?')[0] == "/ogc/features/collections/" + collection + "/items"
      && PairsRead(path)
         == if Names(query, "filter") && !Names(query, "filter-lang") then query + [("filter-lang", "cql2-text")]
            else query
  {
    TypeNameIs(collection);
    SentIs(query);
    TheItems(collection);
    if IsCollection(collection) {
      PathOfCollection(collection, query);
      if Sent(query) == [] {
        NoQueryIn(collection);
      }
    }
    hide COLLECTIONS, ITEMS, IsCollection, TypeName, Split, SplitOnce, Sent, QueryText, PairsOf, Checked, Names;
  }

  lemma TheItems(collection: Text)
    ensures COLLECTIONS + collection + ITEMS == "/ogc/features/collections/" + collection + "/items"
  {}

  lemma PathOfCollection(collection: Text, query: seq<Pair>)
    requires IsCollection(collection)
    ensures var items := COLLECTIONS + collection + ITEMS;
      var made := FeaturesPath(collection, query);
      && made.Ok? && Checked(made.value) == made && Split(made.value, '?')[0] == items
      && (if Sent(query) == [] then made.value == items
          else SplitOnce(made.value, '?') == Some((items, QueryText(Sent(query))))
               && PairsOf(QueryText(Sent(query))) == Sent(query))
  {
    var items := COLLECTIONS + collection + ITEMS;
    var query' := QueryText(Sent(query));
    ItemsPath(collection);
    QueryReadsBack(Sent(query));
    QueryChars();
    hide COLLECTIONS, ITEMS, DoubleSlash, HasDots, IsCollection, Split, Sent, QueryText, IsUnreserved, PairsOf;
    SplitsOne(items, '?');
    SplitsFirst(items, query', '?');
  }

  lemma QueryChars()
    ensures !IsUnreserved('\\') && !IsUnreserved('#')
  {}

  /**
   A features path tells what it was made from: no two collections, and no two lists of pairs
   sent, share one.
   */
  lemma PathsTellApart(collection: Text, query: seq<Pair>, other: Text, others: seq<Pair>)
    requires FeaturesPath(collection, query).Ok? && FeaturesPath(collection, query) == FeaturesPath(other, others)
    ensures collection == other && Sent(query) == Sent(others)
  {
    assert IsCollection(collection) && IsCollection(other);
    PathOfCollection(collection, query);
    PathOfCollection(other, others);
    hide FeaturesPath, COLLECTIONS, ITEMS, IsCollection, Split, SplitOnce, Sent, QueryText, PairsOf, Checked;
    SameBetween(COLLECTIONS, collection, other, ITEMS);
    NoQueryIn(collection);
  }

  lemma SameBetween(front: Text, a: Text, b: Text, back: Text)
    requires front + a + back == front + b + back
    ensures a == b
  {
    assert |a| == |b|;
    assert (front + a + back)[|front|..|front| + |a|] == a && (front + b + back)[|front|..|front| + |b|] == b;
  }

  lemma NoQueryIn(collection: Text)
    requires IsCollection(collection)
    ensures SplitOnce(COLLECTIONS + collection + ITEMS, '?') == None
  {
    ItemsPath(collection);
    SplitsOne(COLLECTIONS + collection + ITEMS, '?');
  }

  /**
   An encoded id is a dot segment exactly when the id is one or two dots: encoding leaves them as
   they are.
   */
  lemma EncodedDots(id: Text)
    ensures IsDots(EncodeOf(id)) <==> id == ['.'] || id == ['.', '.']
  {
    DecodeUndoesEncode(id);
    var e := EncodeOf(id);
    if e == ['.'] {
      assert DecodeOf(['.']) == ['.'] by { assert ['.'][1..] == []; }
    } else if e == ['.', '.'] {
      TwoDots();
    } else if IsEncodedDots(e) {
      DecodedDots(e);
      assert id == ['.', '.'];
      TwoDots();
      assert false;
    }
    if id == ['.'] {
      assert id[1..] == [];
    } else if id == ['.', '.'] {
      TwoDots();
    }
  }

  lemma TwoDots()
    ensures EncodeOf(['.', '.']) == ['.', '.'] && DecodeOf(['.', '.']) == ['.', '.']
  {
    assert ['.', '.'][1..] == ['.'] && ['.'][1..] == [];
    assert EncodeOf(['.']) == ['.'];
    assert DecodeOf(['.']) == ['.'];
  }

  lemma DecodedDots(e: Text)
    requires IsEncodedDots(e)
    ensures DecodeOf(e) == ['.', '.']
  {
    assert 46 as char == '.';
    assert Radix16(e[1], e[2]) == Some('.') && Radix16(e[4], e[5]) == Some('.');
    var rest := e[3..];
    assert rest[3..] == [] && rest[1] == e[4] && rest[2] == e[5];
    assert DecodeOf(rest) == ['.'] + DecodeOf([]);
  }

  /** An id holds a control character of ASCII, or one of Latin-1 in its two octets, at a place. */
  predicate ControlAt(id: Text, i: int)
    requires 0 <= i < |id|
  {
    id[i] as int < 32 || id[i] as int == 127
    || (i + 1 < |id| && id[i] as int == 0xc2 && 0x80 <= id[i + 1] as int <= 0x9f)
  }

  /** There is a path for an Entity exactly when its id is not empty and holds no control character. */
  lemma EntityPathExactly(id: Text)
    ensures EntityAttrsPath(id).Ok? <==> id != [] && forall i | 0 <= i < |id| :: !ControlAt(id, i)
  {
    if c :| c in id && (c < ' ' || c == '\U{007F}') {
      var i :| 0 <= i < |id| && id[i] == c;
      assert ControlAt(id, i);
    }
    if i :| 0 <= i < |id| - 1 && id[i] == '\U{00C2}' && '\U{0080}' <= id[i + 1] <= '\U{009F}' {
      assert ControlAt(id, i);
    }
    if i :| 0 <= i < |id| && ControlAt(id, i) {
      assert id[i] in id;
    }
  }

  /** The path of an Entity passes the check exactly when its id is not one or two dots. */
  lemma EntityPathChecked(id: Text)
    requires EntityAttrsPath(id).Ok?
    ensures var path := EntityAttrsPath(id).value;
      && (Checked(path) == Ok(path) <==> id != ['.'] && id != ['.', '.'])
      && (Checked(path) != Ok(path) <==> Checked(path) == Err(DotSegment))
      && path == "/ngsi-ld/v1/entities/" + EncodeOf(id) + "/attrs" && DecodeOf(EncodeOf(id)) == id
  {
    DecodeUndoesEncode(id);
    var e := EncodeOf(id);
    var path := EntityAttrsPath(id).value;
    EncodedIsPlain(id);
    EncodedDots(id);
    EntityPath(e);
  }

  lemma EntityPath(e: Text)
    requires e != [] && forall c | c in e :: IsUnreserved(c) || c == '%'
    ensures var path := ENTITIES + e + ATTRS;
      Checked(path) == if IsDots(e) then Err(DotSegment) else Ok(path)
  {
    var path := ENTITIES + e + ATTRS;
    Entities();
    Attrs();
    EncodedChars(e);
    hide ENTITIES, ATTRS, IsPathChar, DoubleSlash, HasDots, IsUnreserved, IsDots, Split;
    var root, tail := ENTITIES[..|ENTITIES| - 1], ATTRS[1..];
    PathChars(root);
    PathChars(tail);
    PathChars(['/']) by { SlashIsPathChar(); }
    SplitsOne(path, '?');
    NoSlashNoDouble(e);
    assert e[0] in e && e[|e| - 1] in e;
    SlashesApart(ENTITIES, e);
    var front := ENTITIES + e;
    assert front[|front| - 1] == e[|e| - 1];
    SlashesApart(front, ATTRS);
    assert path == root + ['/'] + (e + ['/'] + tail);
    DotsApart(root, e + ['/'] + tail);
    DotsApart(e, tail);
    NoDotsWithoutDots(root);
    NoDotsWithoutDots(tail);
    OneSegment(e);
  }

  lemma SlashIsPathChar()
    ensures IsPathChar('/')
  {}

  lemma EncodedChars(e: Text)
    requires forall c | c in e :: IsUnreserved(c) || c == '%'
    ensures '/' !in e && '?' !in e && '\\' !in e && '#' !in e
  {}

  lemma OneSegment(e: Text)
    requires '/' !in e
    ensures HasDots(e) <==> IsDots(e)
  {
    SplitsOne(e, '/');
    hide Split, IsDots;
  }
}
