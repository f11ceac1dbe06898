/**
 The widget's reader of Server-Sent Events: the complete events of a buffer, the unfinished tail
 kept for the next read, and the read loop over a stream that arrives in chunks.

 WHATWG HTML section 9.2.6 defines the lines; what is modelled is the reader as written.
 `JSON.parse` is a parameter: a function that gives a value or fails.
 */
module EventStream {
  import opened Wrappers

  // ----- line ends

  /** `text` with every CR LF and every lone CR as one LF. */
  function Lf(text: string): string {
    if text == "" then ""
    else if text[0] != '\r' then [text[0]] + Lf(text[1..])
    else "\n" + Lf(if |text| > 1 && text[1] == '\n' then text[2..] else text[1..])
  }

  // ----- blocks

  predicate BlankAt(text: string, at: nat) {
    at + 2 <= |text| && text[at] == '\n' && text[at + 1] == '\n'
  }

  /** Where the first blank line starts. */
  function FindBlank(text: string): (found: Option<nat>)
    ensures found.Some? ==> found.value + 2 <= |text|
  {
    if |text| < 2 then None
    else if BlankAt(text, 0) then Some(0)
    else match FindBlank(text[1..]) case None => None case Some(i) => Some(i + 1)
  }

  lemma {:induction false} FindBlankFinds(text: string)
    ensures match FindBlank(text)
      case Some(at) => BlankAt(text, at) && forall i: nat | i < at :: !BlankAt(text, i)
      case None => forall i: nat :: !BlankAt(text, i)
  {
    if |text| >= 2 && !BlankAt(text, 0) {
      FindBlankFinds(text[1..]);
      assert forall i: nat | i > 0 :: BlankAt(text, i) <==> BlankAt(text[1..], i - 1);
    }
  }

  datatype Framed = Framed(blocks: seq<string>, rest: string)

  /** The blocks a text holds, each ended by a blank line, and the unfinished rest. */
  function Frame(text: string): Framed
    decreases |text|
  {
    match FindBlank(text)
    case None => Framed([], text)
    case Some(at) =>
      var tail := Frame(text[at + 2..]);
      Framed([text[..at]] + tail.blocks, tail.rest)
  }

  lemma FrameStep(text: string)
    ensures match FindBlank(text)
      case None => Frame(text) == Framed([], text)
      case Some(at) => Frame(text) == Framed([text[..at]] + Frame(text[at + 2..]).blocks, Frame(text[at + 2..]).rest)
  {
    hide FindBlank;
  }

  // ----- one block

  datatype Event<J> = Event(name: string, data: J)

  /** White space as `String.prototype.trim` takes it. */
  predicate IsSpace(c: char) {
    || '\U{0009}' <= c <= '\U{000D}' || c == ' ' || c == '\U{00A0}' || c == '\U{1680}'
    || '\U{2000}' <= c <= '\U{200A}' || c == '\U{2028}' || c == '\U{2029}' || c == '\U{202F}'
    || c == '\U{205F}' || c == '\U{3000}' || c == '\U{FEFF}'
  }

  function Trim(text: string): string
    decreases |text|
  {
    if text == "" then ""
    else if IsSpace(text[0]) then Trim(text[1..])
    else if IsSpace(text[|text| - 1]) then Trim(text[..|text| - 1])
    else text
  }

  /** The lines of a block. */
  function Lines(block: string): (lines: seq<string>)
    ensures lines != []
  {
    if block == "" then [""]
    else
      var later := Lines(block[1..]);
      if block[0] == '\n' then [""] + later else [[block[0]] + later[0]] + later[1..]
  }

  function Join(lines: seq<string>): string {
    if lines == [] then "" else if |lines| == 1 then lines[0] else lines[0] + "\n" + Join(lines[1..])
  }

  const EVENT := "event:"
  const DATA := "data:"

  /** What a line of `data:` carries: one leading space is not part of it. */
  function DataOf(line: string): string
    requires DATA <= line
  {
    var value := line[|DATA|..];
    if value != "" && value[0] == ' ' then value[1..] else value
  }

  /** The name the last `event:` line gives, else `name`. */
  function NameIn(lines: seq<string>, name: string): string {
    if lines == [] then name
    else NameIn(lines[1..], if EVENT <= lines[0] then Trim(lines[0][|EVENT|..]) else name)
  }

  /** What the `data:` lines carry, in order. */
  function DataIn(lines: seq<string>): seq<string> {
    if lines == [] then []
    else (if !(EVENT <= lines[0]) && DATA <= lines[0] then [DataOf(lines[0])] else []) + DataIn(lines[1..])
  }

  /** The event a block is: none without a name, none when its data does not parse. */
  function EventOf<J>(block: string, parse: string -> Option<J>): seq<Event<J>> {
    var name := NameIn(Lines(block), "");
    if name == "" then []
    else
      match parse(Join(DataIn(Lines(block))))
      case None => []
      case Some(data) => [Event(name, data)]
  }

  function EventsIn<J>(blocks: seq<string>, parse: string -> Option<J>): seq<Event<J>> {
    if blocks == [] then [] else EventOf(blocks[0], parse) + EventsIn(blocks[1..], parse)
  }

  lemma EventsStep<J>(block: string, blocks: seq<string>, parse: string -> Option<J>)
    ensures EventsIn([block] + blocks, parse) == EventOf(block, parse) + EventsIn(blocks, parse)
    ensures EventsIn([], parse) == []
  {
    assert ([block] + blocks)[1..] == blocks;
    hide EventOf;
  }

  lemma Regroup<T>(a: seq<T>, b: seq<T>, c: seq<T>)
    ensures a + (b + c) == a + b + c
  {}

  /** Reads the lines of a block for its name and its data. */
  method ReadLines(block: string) returns (name: string, data: seq<string>)
    ensures name == NameIn(Lines(block), "") && data == DataIn(Lines(block))
  {
    hide Trim, Lines, DataOf;
    name, data := "", [];
    var lines := Lines(block);
    for i := 0 to |lines|
      invariant NameIn(lines, "") == NameIn(lines[i..], name)
      invariant DataIn(lines) == data + DataIn(lines[i..])
    {
      var line := lines[i];
      assert lines[i..][1..] == lines[i + 1..];
      if EVENT <= line {
        name := Trim(line[|EVENT|..]);
      } else if DATA <= line {
        data := data + [DataOf(line)];
      }
    }
    assert lines[|lines|..] == [];
  }

  method BlockEvent<J>(block: string, parse: string -> Option<J>) returns (event: seq<Event<J>>)
    ensures event == EventOf(block, parse)
  {
    var name, data := ReadLines(block);
    if name == "" {
      return [];
    }
    match parse(Join(data)) {
      case None => return [];
      case Some(value) => return [Event(name, value)];
    }
  }

  /** The complete events of `buffer`, and the tail for the next read. */
  method Events<J>(buffer: string, parse: string -> Option<J>) returns (out: seq<Event<J>>, rest: string)
    ensures out == EventsIn(Frame(Lf(buffer)).blocks, parse)
    ensures rest == Frame(Lf(buffer)).rest
  {
    hide *;
    out := [];
    rest := Lf(buffer);
    ghost var whole := Frame(rest);
    var found := FindBlank(rest);
    assert EventsIn(whole.blocks, parse) == [] + EventsIn(whole.blocks, parse);
    while found.Some?
      invariant found == FindBlank(rest)
      invariant EventsIn(whole.blocks, parse) == out + EventsIn(Frame(rest).blocks, parse)
      invariant whole.rest == Frame(rest).rest
      decreases |rest|
    {
      var at := found.value;
      var event := BlockEvent(rest[..at], parse);
      FrameStep(rest);
      EventsStep(rest[..at], Frame(rest[at + 2..]).blocks, parse);
      Regroup(out, event, EventsIn(Frame(rest[at + 2..]).blocks, parse));
      out := out + event;
      rest := rest[at + 2..];
      found := FindBlank(rest);
    }
    FrameStep(rest);
    EventsStep("", [], parse);
    assert out + [] == out;
  }

  // ----- a stream cut into chunks

  /** What the read loop has after its chunks, `rest` being held before them. */
  function Read<J>(rest: string, chunks: seq<string>, parse: string -> Option<J>): (seq<Event<J>>, string)
    decreases |chunks|
  {
    if chunks == [] then ([], rest)
    else
      var now := Frame(Lf(rest + chunks[0]));
      var (later, end) := Read(now.rest, chunks[1..], parse);
      (EventsIn(now.blocks, parse) + later, end)
  }

  /** The read loop: each chunk behind what the last one left, its events handled at once. */
  method ReadLoop<J>(chunks: seq<string>, parse: string -> Option<J>) returns (handled: seq<Event<J>>, buffer: string)
    ensures (handled, buffer) == Read("", chunks, parse)
  {
    hide *;
    handled, buffer := [], "";
    assert chunks[0..] == chunks;
    ghost var whole := Read("", chunks, parse);
    assert whole.0 == [] + whole.0;
    for i := 0 to |chunks|
      invariant whole.0 == handled + Read(buffer, chunks[i..], parse).0
      invariant whole.1 == Read(buffer, chunks[i..], parse).1
    {
      ReadStep(buffer, chunks[i..], parse);
      assert chunks[i..][1..] == chunks[i + 1..];
      var events, rest := Events(buffer + chunks[i], parse);
      Regroup(handled, events, Read(rest, chunks[i + 1..], parse).0);
      handled, buffer := handled + events, rest;
    }
    assert chunks[|chunks|..] == [];
    ReadStep(buffer, [], parse);
    assert handled + [] == handled;
  }

  lemma ReadStep<J>(rest: string, chunks: seq<string>, parse: string -> Option<J>)
    ensures chunks == [] ==> Read(rest, chunks, parse) == ([], rest)
    ensures chunks != [] ==>
      var now := Frame(Lf(rest + chunks[0]));
      var later := Read(now.rest, chunks[1..], parse);
      Read(rest, chunks, parse) == (EventsIn(now.blocks, parse) + later.0, later.1)
  {
    hide Frame, Lf, EventsIn;
  }

  lemma {:induction false} FindBlankStays(a: string, b: string)
    requires FindBlank(a).Some?
    ensures FindBlank(a + b) == FindBlank(a)
  {
    assert (a + b)[1..] == a[1..] + b;
    if !BlankAt(a, 0) {
      FindBlankStays(a[1..], b);
    }
  }

  // Framing goes on where it stopped.
  lemma {:induction false} FrameGoesOn(a: string, b: string)
    ensures Frame(a + b).blocks == Frame(a).blocks + Frame(Frame(a).rest + b).blocks
    ensures Frame(a + b).rest == Frame(Frame(a).rest + b).rest
    decreases |a|
  {
    hide *;
    FrameStep(a);
    match FindBlank(a)
    case None =>
      assert [] + Frame(a + b).blocks == Frame(a + b).blocks;
    case Some(at) =>
      FindBlankStays(a, b);
      FrameStep(a + b);
      FrameGoesOn(a[at + 2..], b);
      assert (a + b)[..at] == a[..at] && (a + b)[at + 2..] == a[at + 2..] + b;
      var tail := Frame(a[at + 2..]);
      Regroup([a[..at]], tail.blocks, Frame(tail.rest + b).blocks);
  }

  lemma {:induction false} EventsGoOn<J>(a: seq<string>, b: seq<string>, parse: string -> Option<J>)
    ensures EventsIn(a + b, parse) == EventsIn(a, parse) + EventsIn(b, parse)
  {
    if a == [] {
      assert a + b == b;
    } else {
      assert (a + b)[1..] == a[1..] + b;
      EventsGoOn(a[1..], b, parse);
    }
  }

  predicate HasCr(text: string) {
    '\r' in text
  }

  lemma {:induction false} LfHasNoCr(text: string)
    ensures !HasCr(Lf(text))
    decreases |text|
  {
    if text != "" {
      if text[0] != '\r' {
        LfHasNoCr(text[1..]);
      } else if |text| > 1 && text[1] == '\n' {
        LfHasNoCr(text[2..]);
      } else {
        LfHasNoCr(text[1..]);
      }
    }
  }

  // What is held has no CR left, so the next chunk is all that is normalised.
  lemma {:induction false} LfBehind(held: string, text: string)
    requires !HasCr(held)
    ensures Lf(held + text) == held + Lf(text)
  {
    if held == "" {
      assert held + text == text;
    } else {
      assert (held + text)[1..] == held[1..] + text;
      LfBehind(held[1..], text);
    }
  }

  lemma {:induction false} RestHasNoCr(text: string)
    requires !HasCr(text)
    ensures !HasCr(Frame(text).rest)
    decreases |text|
  {
    match FindBlank(text)
    case None =>
    case Some(at) => RestHasNoCr(text[at + 2..]);
  }

  /** The chunks, each normalised by itself, one after the other. */
  function LfEach(chunks: seq<string>): string {
    if chunks == [] then "" else Lf(chunks[0]) + LfEach(chunks[1..])
  }

  function Concat(chunks: seq<string>): string {
    if chunks == [] then "" else chunks[0] + Concat(chunks[1..])
  }

  /** What the read loop gives, whatever the chunks: the events of the chunks normalised one by one. */
  lemma {:induction false} ReadIsOneFraming<J>(rest: string, chunks: seq<string>, parse: string -> Option<J>)
    requires !HasCr(rest)
    requires FindBlank(rest) == None
    ensures var framed := Frame(rest + LfEach(chunks));
      Read(rest, chunks, parse) == (EventsIn(framed.blocks, parse), framed.rest)
    decreases chunks
  {
    hide Frame, Lf, Read, EventsIn, FindBlank, HasCr;
    ReadStep(rest, chunks, parse);
    if chunks == [] {
      FrameStep(rest);
      assert rest + "" == rest;
      EventsStep("", [], parse);
    } else {
      var now := Frame(Lf(rest + chunks[0]));
      var later := LfEach(chunks[1..]);
      LfBehind(rest, chunks[0]);
      LfHasNoCr(chunks[0]);
      NoCrTogether(rest, Lf(chunks[0]));
      RestHasNoCr(rest + Lf(chunks[0]));
      RestHasNoBlank(rest + Lf(chunks[0]));
      ReadIsOneFraming(now.rest, chunks[1..], parse);
      FrameGoesOn(rest + Lf(chunks[0]), later);
      Regroup(rest, Lf(chunks[0]), later);
      EventsGoOn(now.blocks, Frame(now.rest + later).blocks, parse);
    }
  }

  lemma NoCrTogether(a: string, b: string)
    requires !HasCr(a) && !HasCr(b)
    ensures !HasCr(a + b)
  {}

  lemma {:induction false} RestHasNoBlank(text: string)
    ensures FindBlank(Frame(text).rest) == None
    decreases |text|
  {
    match FindBlank(text)
    case None =>
    case Some(at) => RestHasNoBlank(text[at + 2..]);
  }

  // ----- where the cut may not fall

  predicate Splits(before: string, after: string) {
    before != "" && before[|before| - 1] == '\r' && after != "" && after[0] == '\n'
  }

  /** Whether some chunk ends between a CR and its LF. */
  predicate CutInsideCrLf(chunks: seq<string>) {
    chunks != [] && (Splits(chunks[0], Concat(chunks[1..])) || CutInsideCrLf(chunks[1..]))
  }

  // Two texts normalised apart are the two normalised together, but for the LF of a CR LF between them.

  ghost predicate NormalisedApart(a: string, b: string) {
    if Splits(a, b) then Lf(a + b) == Lf(a) + Lf(b[1..]) && Lf(b) == "\n" + Lf(b[1..])
    else Lf(a + b) == Lf(a) + Lf(b)
  }

  lemma {:induction false} LfApart(a: string, b: string)
    ensures NormalisedApart(a, b)
    decreases |a|
  {
    if a == "" {
      assert a + b == b;
    } else if |a| == 1 {
      LfApartOne(a[0], b);
      assert [a[0]] == a;
    } else {
      var k := if a[0] == '\r' && a[1] == '\n' then 2 else 1;
      hide NormalisedApart, Lf;
      LfApart(a[k..], b);
      LfApartStep(a, b, k);
    }
  }

  lemma LfApartStep(a: string, b: string, k: nat)
    requires |a| > 1 && k == (if a[0] == '\r' && a[1] == '\n' then 2 else 1) && NormalisedApart(a[k..], b)
    ensures NormalisedApart(a, b)
  {
    hide Lf;
    LfStep(a, k);
    LfStep(a + b, k);
    var first := if a[0] == '\r' then "\n" else [a[0]];
    assert (a + b)[k..] == a[k..] + b;
    SameCut(a, b, k);
    Regroup(first, Lf(a[k..]), Lf(b));
    if Splits(a, b) {
      Regroup(first, Lf(a[k..]), Lf(b[1..]));
    }
  }

  lemma SameCut(a: string, b: string, k: nat)
    requires |a| > 1 && k == (if a[0] == '\r' && a[1] == '\n' then 2 else 1)
    ensures Splits(a, b) <==> Splits(a[k..], b)
  {}

  lemma LfStep(text: string, k: nat)
    requires |text| > 1 && k == if text[0] == '\r' && text[1] == '\n' then 2 else 1
    ensures Lf(text) == (if text[0] == '\r' then "\n" else [text[0]]) + Lf(text[k..])
  {}

  lemma LfApartOne(c: char, b: string)
    ensures NormalisedApart([c], b)
  {
    var text := [c] + b;
    OneLf(c);
    if b == "" {
      assert text == [c];
    } else {
      var k := if c == '\r' && b[0] == '\n' then 2 else 1;
      LfStep(text, k);
      assert text[1..] == b && text[2..] == b[1..];
      if b[0] == '\n' {
        assert Lf(b) == "\n" + Lf(b[1..]);
      }
    }
    hide Lf;
  }

  lemma OneLf(c: char)
    ensures Lf([c]) == if c == '\r' then "\n" else [c]
  {}

  lemma {:induction false} LfOfChunks(chunks: seq<string>)
    ensures |LfEach(chunks)| >= |Lf(Concat(chunks))|
    ensures CutInsideCrLf(chunks) ==> |LfEach(chunks)| > |Lf(Concat(chunks))|
    ensures !CutInsideCrLf(chunks) ==> LfEach(chunks) == Lf(Concat(chunks))
  {
    if chunks != [] {
      LfApart(chunks[0], Concat(chunks[1..]));
      LfOfChunks(chunks[1..]);
      hide Lf;
    }
  }

  // A framing keeps every character, so two texts framed alike are the same text.
  function Unframed(framed: Framed): string
    decreases |framed.blocks|
  {
    if framed.blocks == [] then framed.rest
    else framed.blocks[0] + "\n\n" + Unframed(Framed(framed.blocks[1..], framed.rest))
  }

  lemma {:induction false} FramingKeepsAll(text: string)
    ensures Unframed(Frame(text)) == text
    decreases |text|
  {
    match FindBlank(text)
    case None =>
    case Some(at) =>
      FramingKeepsAll(text[at + 2..]);
      FindBlankFinds(text);
      assert text == text[..at] + "\n\n" + text[at + 2..];
      assert Frame(text).blocks[1..] == Frame(text[at + 2..]).blocks;
  }

  /** The blocks are those of the whole stream exactly when no chunk ends between a CR and its LF. */
  lemma ChunksFrameAlike(chunks: seq<string>)
    ensures Frame(LfEach(chunks)) == Frame(Lf(Concat(chunks))) <==> !CutInsideCrLf(chunks)
  {
    LfOfChunks(chunks);
    FramingKeepsAll(LfEach(chunks));
    FramingKeepsAll(Lf(Concat(chunks)));
  }

  lemma {:induction false} NoCrNoCut(chunks: seq<string>)
    requires !HasCr(Concat(chunks))
    ensures !CutInsideCrLf(chunks)
  {
    if chunks != [] {
      assert forall c | c in chunks[0] :: c in Concat(chunks);
      assert forall c | c in Concat(chunks[1..]) :: c in Concat(chunks);
      NoCrNoCut(chunks[1..]);
    }
  }

  // ----- which of these cuts change the events

  /** Data that is taken as it is, so that the events show all that was read. */
  function Itself(data: string): Option<string> {
    Some(data)
  }

  /** The events of a text before their data is parsed. */
  function Raws(text: string): seq<Event<string>> {
    EventsIn(Frame(text).blocks, Itself)
  }

  function Raw(block: string): seq<Event<string>> {
    EventOf(block, Itself)
  }

  function Parsed<J>(raws: seq<Event<string>>, parse: string -> Option<J>): seq<Event<J>> {
    if raws == [] then []
    else
      (match parse(raws[0].data) case None => [] case Some(data) => [Event(raws[0].name, data)])
      + Parsed(raws[1..], parse)
  }

  lemma {:induction false} ParsedEvents<J>(blocks: seq<string>, parse: string -> Option<J>)
    ensures EventsIn(blocks, parse) == Parsed(EventsIn(blocks, Itself), parse)
  {
    if blocks != [] {
      ParsedEvents(blocks[1..], parse);
      var raw, later := Raw(blocks[0]), EventsIn(blocks[1..], Itself);
      if raw == [] {
        assert raw + later == later;
        assert EventOf(blocks[0], parse) == [];
      } else {
        assert (raw + later)[1..] == later && (raw + later)[0] == raw[0];
      }
    }
  }

  predicate Naming(lines: seq<string>) {
    exists line | line in lines :: EVENT <= line
  }

  predicate Nameless(block: string) {
    NameIn(Lines(block), "") == ""
  }

  /** Whether two parts of a block make the events the block makes. */
  predicate SplitAlike(a: string, b: string) {
    var first, second := DataIn(Lines(a)), DataIn(Lines(b));
    if Nameless(a) then Nameless(b) || first == [] || (first == [""] && second == [])
    else !Naming(Lines(b)) && (second == [] || (second == [""] && first == []))
  }

  /**
   Whether a cut may fall inside a CR LF, `block` being the unfinished block up to it and `after`
   what follows it: on a line without text, at the end of a block's last line, or where the block's
   two parts make the same events. A block that never ends must have no name yet.
   */
  predicate Harmless(block: string, after: string) {
    || block == "" || block[|block| - 1] == '\n'
    || (after != "" && after[0] == '\n')
    || (match FindBlank(after)
        case None => Nameless(block)
        case Some(at) => SplitAlike(block, after[..at]))
  }

  /** Whether every cut inside a CR LF is harmless, `held` being the normalised text before the chunks. */
  predicate CutsHarmless(held: string, chunks: seq<string>)
    decreases |chunks|
  {
    chunks == []
    || (var now, later := held + Lf(chunks[0]), Concat(chunks[1..]);
        && (Splits(chunks[0], later) && now != "" ==>
              Harmless(Frame(now[..|now| - 1]).rest, Lf(later[1..])))
        && CutsHarmless(now, chunks[1..]))
  }

  // A cut makes more events, or as many with less data, or the same.

  function Size(raws: seq<Event<string>>): nat {
    if raws == [] then 0 else |raws[0].data| + Size(raws[1..])
  }

  predicate Higher(a: seq<Event<string>>, b: seq<Event<string>>) {
    |b| > |a| || (|b| == |a| && Size(b) < Size(a))
  }

  lemma {:induction false} SizeTogether(a: seq<Event<string>>, b: seq<Event<string>>)
    ensures Size(a + b) == Size(a) + Size(b)
  {
    if a == [] {
      assert a + b == b;
    } else {
      assert (a + b)[1..] == a[1..] + b;
      SizeTogether(a[1..], b);
    }
  }

  lemma HigherBetween(
    front: seq<Event<string>>, a: seq<Event<string>>, b: seq<Event<string>>, back: seq<Event<string>>)
    ensures Higher(a, b) <==> Higher(front + a + back, front + b + back)
    ensures a == b <==> front + a + back == front + b + back
  {
    SizeTogether(front + a, back);
    SizeTogether(front, a);
    SizeTogether(front + b, back);
    SizeTogether(front, b);
    hide Size;
    if front + a + back == front + b + back {
      assert |a| == |b|;
      assert (front + a + back)[|front|..|front| + |a|] == a;
      assert (front + b + back)[|front|..|front| + |b|] == b;
    }
  }

  // The lines of a block that is put together from two.

  lemma {:induction false} LinesTogether(a: string, b: string)
    ensures Lines(a + "\n" + b) == Lines(a) + Lines(b)
  {
    hide Lines;
    var text := a + "\n" + b;
    FirstLine(text);
    if a == "" {
      assert text[1..] == b;
      NoLines();
    } else {
      FirstLine(a);
      assert text[1..] == a[1..] + "\n" + b;
      LinesTogether(a[1..], b);
      PutInFront(a[0], Lines(a[1..]), Lines(b));
    }
  }

  /** The lines of a text whose rest has `later`, with the character `c` in front. */
  function InFront(c: char, later: seq<string>): seq<string>
    requires later != []
  {
    if c == '\n' then [""] + later else [[c] + later[0]] + later[1..]
  }

  lemma FirstLine(text: string)
    requires text != ""
    ensures Lines(text) == InFront(text[0], Lines(text[1..]))
  {}

  lemma NoLines()
    ensures Lines("") == [""]
  {}

  lemma PutInFront(c: char, a: seq<string>, b: seq<string>)
    requires a != []
    ensures InFront(c, a + b) == InFront(c, a) + b
  {}

  lemma {:induction false} NamesTogether(a: seq<string>, b: seq<string>, name: string)
    ensures NameIn(a + b, name) == NameIn(b, NameIn(a, name))
  {
    hide Trim;
    if a == [] {
      assert a + b == b;
    } else {
      assert (a + b)[1..] == a[1..] + b;
      NamesTogether(a[1..], b, if EVENT <= a[0] then Trim(a[0][|EVENT|..]) else name);
    }
  }

  lemma {:induction false} DataTogether(a: seq<string>, b: seq<string>)
    ensures DataIn(a + b) == DataIn(a) + DataIn(b)
  {
    hide DataOf;
    if a == [] {
      assert a + b == b;
    } else {
      assert (a + b)[1..] == a[1..] + b;
      DataTogether(a[1..], b);
    }
  }

  lemma {:induction false} NameOfLines(lines: seq<string>, x: string, y: string)
    ensures if Naming(lines) then NameIn(lines, x) == NameIn(lines, y) else NameIn(lines, x) == x
  {
    hide Trim;
    if lines != [] {
      NameOfLines(lines[1..], x, y);
      assert lines == [lines[0]] + lines[1..];
      NamingFirst(lines);
    }
  }

  lemma NamingFirst(lines: seq<string>)
    requires lines != []
    ensures Naming(lines) <==> EVENT <= lines[0] || Naming(lines[1..])
  {
    if EVENT <= lines[0] {
      assert lines[0] in lines;
    }
    assert lines == [lines[0]] + lines[1..];
    assert forall line :: line in lines <==> line == lines[0] || line in lines[1..];
  }

  lemma {:induction false} JoinedSize(a: seq<string>, b: seq<string>)
    ensures |Join(a + b)| == |Join(a)| + |Join(b)| + if a != [] && b != [] then 1 else 0
  {
    if a == [] {
      assert a + b == b;
    } else {
      assert (a + b)[1..] == a[1..] + b;
      JoinedSize(a[1..], b);
    }
  }

  lemma JoinsToNothing(lines: seq<string>)
    ensures Join(lines) == "" <==> lines == [] || lines == [""]
  {}

  // Data with more of it before or behind is the same data, or more.
  lemma MoreData(a: seq<string>, b: seq<string>)
    ensures if a == [] || (a == [""] && b == []) then Join(a + b) == Join(b) else |Join(a + b)| > |Join(b)|
    ensures if b == [] || (b == [""] && a == []) then Join(a + b) == Join(a) else |Join(a + b)| > |Join(a)|
  {
    JoinedSize(a, b);
    JoinsToNothing(a);
    JoinsToNothing(b);
    assert a == [] ==> a + b == b;
    assert b == [] ==> a + b == a;
  }

  lemma RawOf(block: string)
    ensures var name := NameIn(Lines(block), "");
      Raw(block) == if name == "" then [] else [Event(name, Join(DataIn(Lines(block))))]
  {
    hide NameIn, DataIn, Lines, Join;
  }

  lemma OneSize(e: Event<string>)
    ensures Size([e]) == |e.data| && Size([]) == 0
  {}

  /** A block cut in two makes the same events exactly when its parts are alike, and higher ones otherwise. */
  lemma TwoParts(a: string, b: string)
    ensures var whole, parts := Raw(a + "\n" + b), Raw(a) + Raw(b);
      if SplitAlike(a, b) then whole == parts else Higher(whole, parts)
  {
    hide Lines, NameIn, DataIn, Join, Raw, Naming, Size, Higher;
    var x, y := Lines(a), Lines(b);
    LinesTogether(a, b);
    NamesTogether(x, y, "");
    DataTogether(x, y);
    NameOfLines(y, NameIn(x, ""), "");
    NameOfLines(y, "", "");
    MoreData(DataIn(x), DataIn(y));
    RawOf(a);
    RawOf(b);
    RawOf(a + "\n" + b);
    var data := Join(DataIn(x) + DataIn(y));
    assert Raw(a) == [] ==> Raw(a) + Raw(b) == Raw(b);
    assert Raw(b) == [] ==> Raw(a) + Raw(b) == Raw(a);
    if !Nameless(a) && (Naming(y) || !Nameless(b)) {
      MoreEvents(Raw(a + "\n" + b), Raw(a) + Raw(b));
    } else if Nameless(a) && !Nameless(b) {
      LessData(NameIn(y, ""), data, Join(DataIn(y)));
    } else if !Nameless(a) {
      LessData(NameIn(x, ""), data, Join(DataIn(x)));
    }
  }

  lemma MoreEvents(a: seq<Event<string>>, b: seq<Event<string>>)
    requires |a| < |b|
    ensures Higher(a, b)
  {}

  lemma LessData(name: string, more: string, less: string)
    ensures |less| < |more| ==> Higher([Event(name, more)], [Event(name, less)])
  {
    OneSize(Event(name, more));
    OneSize(Event(name, less));
  }

  // Where an LF more comes in front of a text, and where one more comes behind a line.

  lemma FirstBlank(text: string, at: nat)
    requires BlankAt(text, at) && forall i: nat | i < at :: !BlankAt(text, i)
    ensures FindBlank(text) == Some(at)
  {
    FindBlankFinds(text);
  }

  lemma NoBlank(text: string)
    requires forall i: nat :: !BlankAt(text, i)
    ensures FindBlank(text) == None
  {
    FindBlankFinds(text);
  }

  // A blank line of a text put together is one of its parts', or the line between them is empty.
  lemma BlankInTwo(block: string, v: string, i: nat)
    ensures BlankAt(block + "\n" + v, i) <==>
      if i < |block| then BlankAt(block + "\n", i)
      else if i == |block| then v != "" && v[0] == '\n'
      else BlankAt(v, i - |block| - 1)
  {
    var text := block + "\n" + v;
    assert i < |block| ==> text[i] == (block + "\n")[i] && text[i + 1] == (block + "\n")[i + 1];
    assert text[|block|] == '\n';
    assert forall k | 0 <= k < |v| :: text[|block| + 1 + k] == v[k];
  }

  lemma BlankAfter(block: string, v: string)
    requires FindBlank(block + "\n") == None
    ensures FindBlank(block + "\n\n" + v) == Some(|block|)
  {
    hide FindBlank, BlankAt;
    assert block + "\n\n" + v == block + "\n" + ("\n" + v);
    FindBlankFinds(block + "\n");
    BlankInTwo(block, "\n" + v, |block|);
    forall i: nat | i < |block|
      ensures !BlankAt(block + "\n" + ("\n" + v), i)
    {
      BlankInTwo(block, "\n" + v, i);
    }
    FirstBlank(block + "\n" + ("\n" + v), |block|);
  }

  lemma RawsStep(text: string, at: nat)
    requires FindBlank(text) == Some(at)
    ensures Raws(text) == Raw(text[..at]) + Raws(text[at + 2..])
  {
    FrameStep(text);
    hide Frame, FindBlank;
    EventsStep(text[..at], Frame(text[at + 2..]).blocks, Itself);
  }

  lemma BlockThenRest(block: string, v: string)
    requires FindBlank(block + "\n") == None
    ensures Raws(block + "\n\n" + v) == Raw(block) + Raws(v)
  {
    var text := block + "\n\n" + v;
    BlankAfter(block, v);
    hide FindBlank, Raws, Raw;
    RawsStep(text, |block|);
    assert text[..|block|] == block && text[|block| + 2..] == v;
  }

  lemma NoEvents(text: string)
    requires FindBlank(text) == None
    ensures Raws(text) == []
  {
    FrameStep(text);
  }

  lemma NothingRaw(block: string)
    requires block == "" || block == "\n"
    ensures Raw(block) == []
  {
    assert Lines("") == [""];
    assert block == "\n" ==> block[1..] == "";
    assert !(EVENT <= "");
    assert NameIn([""], "") == NameIn([""][1..], "") == "";
    assert NameIn(["", ""], "") == NameIn(["", ""][1..], "");
  }

  // An LF in front of a text changes none of its events.
  lemma {:induction false} LfInFront(v: string)
    ensures Raws("\n" + v) == Raws(v)
    decreases |v|
  {
    var text := "\n" + v;
    FindBlankFinds(v);
    if v != "" && v[0] == '\n' {
      LfInFront(v[1..]);
      assert v == "\n" + v[1..] && text == "" + "\n\n" + v[1..];
      BlockThenRest("", v[1..]);
      NothingRaw("");
      assert [] + Raws(v[1..]) == Raws(v[1..]);
    } else {
      assert text[1..] == v;
      match FindBlank(v)
      case None =>
        NoEvents(v);
        NoEvents(text);
      case Some(at) =>
        SameBehindLf(v, at);
    }
  }

  lemma SameBehindLf(v: string, at: nat)
    requires FindBlank(v) == Some(at) && v[0] != '\n'
    ensures Raws("\n" + v) == Raws(v)
  {
    var text := "\n" + v;
    assert text[1..] == v;
    assert FindBlank(text) == Some(at + 1);
    hide Raws, Raw, FindBlank;
    RawsStep(v, at);
    RawsStep(text, at + 1);
    assert text[..at + 1] == "\n" + v[..at] && text[at + 3..] == v[at + 2..];
    RawBehindLf(v[..at]);
  }

  lemma RawBehindLf(block: string)
    ensures Raw("\n" + block) == Raw(block)
  {
    assert "" + "\n" + block == "\n" + block;
    LinesTogether("", block);
    NoLines();
    NamesTogether([""], Lines(block), "");
    DataTogether([""], Lines(block));
    EmptyLine();
    assert [] + DataIn(Lines(block)) == DataIn(Lines(block));
    RawOf(block);
    RawOf("\n" + block);
    hide Lines, NameIn, DataIn, Join, Raw;
  }

  lemma EmptyLine()
    ensures NameIn([""], "") == "" && DataIn([""]) == []
  {
    assert [""][1..] == [];
  }

  // ----- one LF more

  /**
   What the LF of a cut does to the events behind `block`: nothing when it is harmless, else there
   are higher ones.
   */
  ghost predicate Does(block: string, v: string) {
    var whole, cut := Raws(block + "\n" + v), Raws(block + "\n\n" + v);
    if Harmless(block, v) then whole == cut else Higher(whole, cut)
  }

  lemma LfMore(block: string, v: string)
    requires FindBlank(block) == None
    ensures Does(block, v)
  {
    hide Raws, FindBlank, SplitAlike, Higher, Nameless;
    if block == "" {
      LfInFront(v);
      LfInFront("\n" + v);
      assert "" + "\n" + v == "\n" + v && "" + "\n\n" + v == "\n" + ("\n" + v);
    } else if block[|block| - 1] == '\n' {
      BehindEmptyLine(block, v);
    } else {
      NoBlankYet(block);
      BlockThenRest(block, v);
      if v != "" && v[0] == '\n' {
        BlockThenRest(block, v[1..]);
        LfInFront(v[1..]);
        assert v == "\n" + v[1..] && block + "\n" + v == block + "\n\n" + v[1..];
      } else {
        InsideBlock(block, v);
      }
    }
  }

  lemma NoBlankYet(block: string)
    requires FindBlank(block) == None && (block == "" || block[|block| - 1] != '\n')
    ensures FindBlank(block + "\n") == None
  {
    hide FindBlank;
    FindBlankFinds(block);
    forall i: nat
      ensures !BlankAt(block + "\n", i)
    {
      assert !BlankAt(block, i);
      assert i < |block| ==> (block + "\n")[i] == block[i];
      assert i + 1 < |block| ==> (block + "\n")[i + 1] == block[i + 1];
    }
    NoBlank(block + "\n");
  }

  // Behind a line that is already empty: the block ended there.
  lemma BehindEmptyLine(block: string, v: string)
    requires FindBlank(block) == None && block != "" && block[|block| - 1] == '\n'
    ensures Raws(block + "\n" + v) == Raws(block + "\n\n" + v)
  {
    hide Raws, FindBlank;
    var front := block[..|block| - 1];
    assert block == front + "\n";
    assert block + "\n" + v == front + "\n\n" + v && block + "\n\n" + v == front + "\n\n" + ("\n" + v);
    BlockThenRest(front, v);
    BlockThenRest(front, "\n" + v);
    LfInFront(v);
  }

  // Between two lines of a block.
  lemma InsideBlock(block: string, v: string)
    requires FindBlank(block + "\n") == None && block != "" && block[|block| - 1] != '\n'
    requires v == "" || v[0] != '\n'
    ensures Does(block, v)
  {
    hide Raws, Raw, FindBlank, Higher, SplitAlike, Nameless, Size;
    BlockThenRest(block, v);
    match FindBlank(v)
    case None =>
      NeverEnds(block, v);
      RawSize(block);
    case Some(at) =>
      FirstBlock(block, v, at);
      PartsInside(block, v[..at], Raws(v[at + 2..]));
  }

  lemma PartsInside(a: string, b: string, back: seq<Event<string>>)
    ensures var whole, cut := Raw(a + "\n" + b) + back, Raw(a) + (Raw(b) + back);
      if SplitAlike(a, b) then whole == cut else Higher(whole, cut)
  {
    hide Raw, Higher, SplitAlike;
    TwoParts(a, b);
    HigherBetween([], Raw(a + "\n" + b), Raw(a) + Raw(b), back);
    assert [] + Raw(a + "\n" + b) + back == Raw(a + "\n" + b) + back;
    assert [] + (Raw(a) + Raw(b)) + back == Raw(a) + (Raw(b) + back);
  }

  lemma RawSize(block: string)
    ensures if Nameless(block) then Raw(block) == [] && Raw(block) + [] == [] else Higher([], Raw(block) + [])
  {
    RawOf(block);
    hide Raw, NameIn, Lines, DataIn, Join;
    if !Nameless(block) {
      MoreEvents([], Raw(block) + []);
    }
  }

  lemma NeverEnds(block: string, v: string)
    requires FindBlank(block + "\n") == None && FindBlank(v) == None && (v == "" || v[0] != '\n')
    ensures Raws(v) == [] && Raws(block + "\n" + v) == []
  {
    hide FindBlank, Raws, BlankAt;
    NoEvents(v);
    FindBlankFinds(block + "\n");
    FindBlankFinds(v);
    forall i: nat
      ensures !BlankAt(block + "\n" + v, i)
    {
      BlankInTwo(block, v, i);
    }
    NoBlank(block + "\n" + v);
    NoEvents(block + "\n" + v);
  }

  lemma FirstBlock(block: string, v: string, at: nat)
    requires FindBlank(block + "\n") == None && FindBlank(v) == Some(at) && v[0] != '\n'
    ensures Raws(block + "\n" + v) == Raw(block + "\n" + v[..at]) + Raws(v[at + 2..])
    ensures Raws(v) == Raw(v[..at]) + Raws(v[at + 2..])
  {
    hide Raws, Raw, FindBlank;
    var text, n := block + "\n" + v, |block| + 1 + at;
    LaterBlank(block, v, at);
    RawsStep(v, at);
    RawsStep(text, n);
    assert text[..n] == block + "\n" + v[..at] && text[n + 2..] == v[at + 2..];
  }

  lemma {:induction false} LaterBlank(block: string, v: string, at: nat)
    requires FindBlank(block + "\n") == None && FindBlank(v) == Some(at) && v[0] != '\n'
    ensures FindBlank(block + "\n" + v) == Some(|block| + 1 + at)
  {
    var ended := block + "\n";
    var text := ended + v;
    if block == "" {
      assert text[1..] == v;
    } else {
      assert ended[1..] == block[1..] + "\n" && text[1..] == block[1..] + "\n" + v;
      LaterBlank(block[1..], v, at);
      assert BlankAt(text, 0) == BlankAt(ended, 0);
    }
  }

  lemma LfMoreAfter(front: string, v: string)
    ensures var whole, cut := Raws(front + "\n" + v), Raws(front + "\n\n" + v);
      if Harmless(Frame(front).rest, v) then whole == cut else Higher(whole, cut)
  {
    hide Raws, FindBlank, Harmless, Higher, Frame;
    var block := Frame(front).rest;
    RestHasNoBlank(front);
    LfMore(block, v);
    var done := EventsIn(Frame(front).blocks, Itself);
    RawsGoOn(front, "\n" + v);
    RawsGoOn(front, "\n\n" + v);
    assert front + ("\n" + v) == front + "\n" + v && front + ("\n\n" + v) == front + "\n\n" + v;
    assert block + ("\n" + v) == block + "\n" + v && block + ("\n\n" + v) == block + "\n\n" + v;
    HigherBetween(done, Raws(block + "\n" + v), Raws(block + "\n\n" + v), []);
    assert done + Raws(block + "\n" + v) + [] == done + Raws(block + "\n" + v);
    assert done + Raws(block + "\n\n" + v) + [] == done + Raws(block + "\n\n" + v);
  }

  lemma RawsGoOn(a: string, b: string)
    ensures Raws(a + b) == EventsIn(Frame(a).blocks, Itself) + Raws(Frame(a).rest + b)
  {
    FrameGoesOn(a, b);
    hide Frame;
    EventsGoOn(Frame(a).blocks, Frame(Frame(a).rest + b).blocks, Itself);
  }

  // ----- any number of cuts

  /**
   The chunks make the events of the whole exactly when every cut inside a CR LF is harmless, and
   higher ones otherwise.
   */
  lemma {:induction false} CutsExactly(held: string, chunks: seq<string>)
    ensures var whole, cut := Raws(held + Lf(Concat(chunks))), Raws(held + LfEach(chunks));
      if CutsHarmless(held, chunks) then whole == cut else Higher(whole, cut)
    decreases |chunks|
  {
    hide Raws, Harmless, Higher, Frame, Lf;
    if chunks == [] {
      assert Lf("") == "" by { NoLf(); }
    } else {
      var later := Concat(chunks[1..]);
      var now := held + Lf(chunks[0]);
      CutsExactly(now, chunks[1..]);
      OneCut(held, chunks[0], later);
      Regroup(held, Lf(chunks[0]), LfEach(chunks[1..]));
      var a, b, c := Raws(held + Lf(Concat(chunks))), Raws(now + Lf(later)), Raws(held + LfEach(chunks));
      HigherIsTransitive(a, b, c);
    }
  }

  lemma NoLf()
    ensures Lf("") == ""
  {}

  lemma HigherIsTransitive(a: seq<Event<string>>, b: seq<Event<string>>, c: seq<Event<string>>)
    ensures Higher(a, b) && Higher(b, c) ==> Higher(a, c)
    ensures !Higher(a, a)
  {}

  lemma OneCut(held: string, chunk: string, later: string)
    ensures var now := held + Lf(chunk);
      var whole, cut := Raws(held + Lf(chunk + later)), Raws(now + Lf(later));
      if Splits(chunk, later) && now != "" && !Harmless(Frame(now[..|now| - 1]).rest, Lf(later[1..]))
      then Higher(whole, cut)
      else whole == cut
  {
    hide Raws, Harmless, Higher, Frame, Lf;
    var now := held + Lf(chunk);
    LfApart(chunk, later);
    if Splits(chunk, later) {
      EndsInLf(chunk);
      var front, v := now[..|now| - 1], Lf(later[1..]);
      assert now == front + "\n";
      LfMoreAfter(front, v);
      assert held + (Lf(chunk) + v) == front + "\n" + v;
      assert now + ("\n" + v) == front + "\n\n" + v;
    } else {
      assert held + (Lf(chunk) + Lf(later)) == now + Lf(later);
    }
  }

  lemma {:induction false} EndsInLf(chunk: string)
    requires chunk != "" && chunk[|chunk| - 1] == '\r'
    ensures Lf(chunk) != "" && Lf(chunk)[|Lf(chunk)| - 1] == '\n'
  {
    var front := chunk[..|chunk| - 1];
    assert chunk == front + "\r";
    LfApart(front, "\r");
    OneLf('\r');
    assert ["\r"[0]] == "\r";
    hide Lf;
  }

  /**
   Whatever the chunks, the read loop handles the events of the whole stream, however their data
   parses, exactly when every cut inside a CR LF is harmless.
   */
  lemma EventsExactly(chunks: seq<string>)
    ensures (forall parse: string -> Option<string> ::
               Read("", chunks, parse).0 == EventsIn(Frame(Lf(Concat(chunks))).blocks, parse))
            <==> CutsHarmless("", chunks)
  {
    hide *;
    if CutsHarmless("", chunks) {
      forall parse: string -> Option<string>
        ensures Read("", chunks, parse).0 == EventsIn(Frame(Lf(Concat(chunks))).blocks, parse)
      {
        OneEventSequence(chunks, parse);
      }
    } else {
      LoopMakes(chunks, Itself);
      CutsExactly("", chunks);
      assert "" + Lf(Concat(chunks)) == Lf(Concat(chunks)) && "" + LfEach(chunks) == LfEach(chunks);
      RawsAre(Lf(Concat(chunks)));
      RawsAre(LfEach(chunks));
      HigherIsTransitive(Raws(LfEach(chunks)), [], []);
    }
  }

  lemma RawsAre(text: string)
    ensures Raws(text) == EventsIn(Frame(text).blocks, Itself)
  {}

  lemma LoopMakes<J>(chunks: seq<string>, parse: string -> Option<J>)
    ensures Read("", chunks, parse) == (EventsIn(Frame(LfEach(chunks)).blocks, parse), Frame(LfEach(chunks)).rest)
  {
    NoBlankInNothing();
    ReadIsOneFraming("", chunks, parse);
    assert "" + LfEach(chunks) == LfEach(chunks);
    hide Read, Frame, EventsIn, LfEach;
  }

  lemma NoBlankInNothing()
    ensures FindBlank("") == None && !HasCr("")
  {}

  /**
   With every such cut harmless the read loop handles the events of the whole stream, whatever the
   chunks; with no such cut it also keeps the same rest.
   */
  lemma OneEventSequence<J>(chunks: seq<string>, parse: string -> Option<J>)
    requires CutsHarmless("", chunks)
    ensures Read("", chunks, parse).0 == EventsIn(Frame(Lf(Concat(chunks))).blocks, parse)
    ensures !CutInsideCrLf(chunks) ==> Read("", chunks, parse).1 == Frame(Lf(Concat(chunks))).rest
  {
    hide *;
    LoopMakes(chunks, parse);
    CutsExactly("", chunks);
    assert "" + Lf(Concat(chunks)) == Lf(Concat(chunks)) && "" + LfEach(chunks) == LfEach(chunks);
    RawsAre(Lf(Concat(chunks)));
    RawsAre(LfEach(chunks));
    ParsedEvents(Frame(LfEach(chunks)).blocks, parse);
    ParsedEvents(Frame(Lf(Concat(chunks))).blocks, parse);
    ChunksFrameAlike(chunks);
  }

  /** No cut inside a CR LF, none to be harmless. */
  lemma {:induction false} UncutIsHarmless(held: string, chunks: seq<string>)
    requires !CutInsideCrLf(chunks)
    ensures CutsHarmless(held, chunks)
    decreases |chunks|
  {
    hide Lf, Harmless, Frame;
    if chunks != [] {
      UncutIsHarmless(held + Lf(chunks[0]), chunks[1..]);
    }
  }

  // ----- an event that is lost

  const NAMED := "event:a"
  const VALUED := "data:1"

  /** A parser that takes one number. */
  function One(data: string): Option<string> {
    if data == "1" then Some(data) else None
  }

  /**
   One event, whose two lines arrive in two chunks with the cut inside the CR LF between them, is
   not handled.
   */
  lemma EventIsLost()
    ensures var chunks := [NAMED + "\r", "\n" + VALUED + "\n\n"];
      && EventsIn(Frame(Lf(Concat(chunks))).blocks, One) == [Event("a", "1")]
      && Read("", chunks, One).0 == []
  {
    hide *;
    var chunks := [NAMED + "\r", "\n" + VALUED + "\n\n"];
    TwoChunks();
    LoopMakes(chunks, One);
    WholeEvent();
    PartEvents();
    RawsAre(NAMED + "\n" + VALUED + "\n\n");
    RawsAre(NAMED + "\n\n" + VALUED + "\n\n");
    ParsedEvents(Frame(NAMED + "\n" + VALUED + "\n\n").blocks, One);
    ParsedEvents(Frame(NAMED + "\n\n" + VALUED + "\n\n").blocks, One);
    ParsedOne();
  }

  lemma ParsedOne()
    ensures Parsed([Event("a", "1")], One) == [Event("a", "1")] && Parsed([Event("a", "")], One) == []
  {
    assert [Event("a", "1")][1..] == [] && [Event("a", "")][1..] == [];
  }

  lemma {:induction false} LfKeeps(text: string)
    requires !HasCr(text)
    ensures Lf(text) == text
  {
    if text != "" {
      assert text[0] in text && forall c | c in text[1..] :: c in text;
      LfKeeps(text[1..]);
    }
  }

  lemma TwoChunks()
    ensures var chunks := [NAMED + "\r", "\n" + VALUED + "\n\n"];
      && Lf(Concat(chunks)) == NAMED + "\n" + VALUED + "\n\n"
      && LfEach(chunks) == NAMED + "\n\n" + VALUED + "\n\n"
  {
    var first, second := NAMED + "\r", "\n" + VALUED + "\n\n";
    hide *;
    NormalisedPieces();
    OfTwo(first, second);
    LfApart(first, second);
    assert Splits(first, second) && second[1..] == VALUED + "\n\n" by { TheCut(); }
    hide NAMED, VALUED;
    assert NAMED + "\n" + second == NAMED + "\n\n" + VALUED + "\n\n";
    assert NAMED + "\n" + (VALUED + "\n\n") == NAMED + "\n" + VALUED + "\n\n";
    assert NormalisedApart(first, second) ==>
      Lf(first + second) == Lf(first) + Lf(second[1..]) by { SplitsApart(first, second); }
  }

  lemma SplitsApart(a: string, b: string)
    requires Splits(a, b)
    ensures NormalisedApart(a, b) ==> Lf(a + b) == Lf(a) + Lf(b[1..])
  {
    hide Lf;
  }

  lemma TheCut()
    ensures var first, second := NAMED + "\r", "\n" + VALUED + "\n\n";
      Splits(first, second) && second[1..] == VALUED + "\n\n"
  {}

  lemma OfTwo(a: string, b: string)
    ensures Concat([a, b]) == a + b && LfEach([a, b]) == Lf(a) + Lf(b)
  {
    hide Lf;
    assert [a, b][1..] == [b];
    assert Concat([b]) == b + "" == b && LfEach([b]) == Lf(b) + "" == Lf(b);
  }

  lemma NormalisedPieces()
    ensures Lf(NAMED + "\r") == NAMED + "\n" && Lf("\n" + VALUED + "\n\n") == "\n" + VALUED + "\n\n"
    ensures Lf(VALUED + "\n\n") == VALUED + "\n\n"
  {
    OneLf('\r');
    assert ['\r'] == "\r";
    assert !HasCr(NAMED) && !HasCr("\n" + VALUED + "\n\n") && !HasCr(VALUED + "\n\n");
    LfKeeps(NAMED);
    LfKeeps("\n" + VALUED + "\n\n");
    LfKeeps(VALUED + "\n\n");
    LfApart(NAMED, "\r");
    hide Lf;
  }

  lemma NoLfNoBlank(line: string)
    requires '\n' !in line
    ensures FindBlank(line) == None && FindBlank(line + "\n") == None
  {
    NoBlank(line);
    NoBlankYet(line);
  }

  lemma {:induction false} OneLine(line: string)
    requires '\n' !in line
    ensures Lines(line) == [line]
  {
    if line == "" {
      NoLines();
    } else {
      OneLine(line[1..]);
      assert line == [line[0]] + line[1..];
    }
  }

  lemma TheLines()
    ensures '\n' !in NAMED && '\n' !in VALUED && VALUED != ""
    ensures NameIn([NAMED], "") == "a" && DataIn([NAMED]) == []
    ensures NameIn([VALUED], "") == "" && NameIn([VALUED], "a") == "a" && DataIn([VALUED]) == ["1"]
    ensures Join([]) == "" && Join(["1"]) == "1"
  {
    assert [NAMED][1..] == [] && [VALUED][1..] == [];
    assert NAMED[|EVENT|..] == "a" && EVENT <= NAMED && !IsSpace('a') && Trim("a") == "a";
    assert VALUED[0] != EVENT[0] && DATA <= VALUED && VALUED[|DATA|..] == "1" && DataOf(VALUED) == "1";
  }

  lemma WholeEvent()
    ensures Raws(NAMED + "\n" + VALUED + "\n\n") == [Event("a", "1")]
  {
    hide *;
    TheLines();
    OneLine(NAMED);
    OneLine(VALUED);
    var block := NAMED + "\n" + VALUED;
    LinesTogether(NAMED, VALUED);
    NamesTogether([NAMED], [VALUED], "");
    DataTogether([NAMED], [VALUED]);
    RawOf(block);
    assert [] + ["1"] == ["1"];
    TwoLinesNoBlank(NAMED, VALUED);
    BlockThenRest(block, "");
    NothingLeft();
    assert block + "\n\n" + "" == block + "\n\n";
    assert Raw(block) + [] == Raw(block);
  }

  lemma NothingLeft()
    ensures Raws("") == []
  {}

  lemma TwoLinesNoBlank(a: string, b: string)
    requires '\n' !in a && '\n' !in b && b != ""
    ensures FindBlank(a + "\n" + b + "\n") == None
  {
    hide FindBlank, BlankAt;
    NoLfNoBlank(a);
    NoLfNoBlank(b);
    FindBlankFinds(a + "\n");
    FindBlankFinds(b + "\n");
    assert b[0] in b;
    forall i: nat
      ensures !BlankAt(a + "\n" + (b + "\n"), i)
    {
      BlankInTwo(a, b + "\n", i);
    }
    NoBlank(a + "\n" + (b + "\n"));
    assert a + "\n" + (b + "\n") == a + "\n" + b + "\n";
  }

  lemma PartEvents()
    ensures Raws(NAMED + "\n\n" + VALUED + "\n\n") == [Event("a", "")]
  {
    hide *;
    TheLines();
    OneLine(NAMED);
    OneLine(VALUED);
    NoLfNoBlank(NAMED);
    NoLfNoBlank(VALUED);
    RawOf(NAMED);
    RawOf(VALUED);
    BlockThenRest(VALUED, "");
    NothingLeft();
    assert VALUED + "\n\n" + "" == VALUED + "\n\n";
    BlockThenRest(NAMED, VALUED + "\n\n");
    assert NAMED + "\n\n" + (VALUED + "\n\n") == NAMED + "\n\n" + VALUED + "\n\n";
    assert [Event("a", "")] + ([] + []) == [Event("a", "")];
  }

  // ----- an event as a server writes it

  const NAME_LINE := "event: "
  const DATA_LINE := "data: "

  /** The lines of a text, each behind `data: `. */
  function DataLines(lines: seq<string>): seq<string> {
    if lines == [] then [] else [DATA_LINE + lines[0]] + DataLines(lines[1..])
  }

  /** An event of a name and any text, without the blank line that ends it. */
  function Written(name: string, data: string): string {
    NAME_LINE + name + "\n" + Join(DataLines(Lines(data)))
  }

  predicate NoLfs(lines: seq<string>) {
    forall line | line in lines :: line != "" && '\n' !in line
  }

  lemma {:induction false} JoinedLines(lines: seq<string>)
    requires lines != [] && forall line | line in lines :: '\n' !in line
    ensures Lines(Join(lines)) == lines
  {
    if |lines| == 1 {
      assert lines[0] in lines;
      OneLine(lines[0]);
    } else {
      assert lines[0] in lines && forall line | line in lines[1..] :: line in lines;
      JoinedLines(lines[1..]);
      LinesTogether(lines[0], Join(lines[1..]));
      OneLine(lines[0]);
      hide Lines;
      assert lines == [lines[0]] + lines[1..];
    }
  }

  lemma {:induction false} LinesJoined(text: string)
    ensures Join(Lines(text)) == text && forall line | line in Lines(text) :: '\n' !in line
  {
    if text != "" {
      LinesJoined(text[1..]);
      InFrontJoins(text[0], Lines(text[1..]));
      assert text == [text[0]] + text[1..];
    }
  }

  lemma InFrontJoins(c: char, later: seq<string>)
    requires later != [] && forall line | line in later :: '\n' !in line
    ensures Join(InFront(c, later)) == [c] + Join(later)
    ensures forall line | line in InFront(c, later) :: '\n' !in line
  {
    hide Join;
    assert later[0] in later && forall line | line in later[1..] :: line in later;
    FirstJoined(later[0], later[1..]);
    assert [later[0]] + later[1..] == later;
    if c == '\n' {
      FirstJoined("", later);
      assert "" + "\n" + Join(later) == [c] + Join(later);
    } else {
      FirstJoined([c] + later[0], later[1..]);
      assert [c] + later[0] + "\n" + Join(later[1..]) == [c] + (later[0] + "\n" + Join(later[1..]));
    }
  }

  lemma FirstJoined(line: string, lines: seq<string>)
    ensures Join([line] + lines) == if lines == [] then line else line + "\n" + Join(lines)
  {
    assert ([line] + lines)[1..] == lines;
  }

  lemma {:induction false} JoinedHasNoBlank(lines: seq<string>)
    requires lines != [] && NoLfs(lines)
    ensures FindBlank(Join(lines) + "\n") == None && Join(lines) != "" && Join(lines)[0] != '\n'
  {
    assert lines[0] in lines && lines[0][0] in lines[0];
    if |lines| == 1 {
      NoLfNoBlank(lines[0]);
    } else {
      assert forall line | line in lines[1..] :: line in lines;
      JoinedHasNoBlank(lines[1..]);
      assert lines[1] in lines && lines[1][0] in lines[1];
      NoBlankBehind(lines[0], Join(lines[1..]));
    }
  }

  lemma NoBlankBehind(line: string, rest: string)
    requires '\n' !in line && line != "" && rest != "" && rest[0] != '\n' && FindBlank(rest + "\n") == None
    ensures FindBlank(line + "\n" + rest + "\n") == None
  {
    hide FindBlank, BlankAt;
    NoLfNoBlank(line);
    FindBlankFinds(line + "\n");
    FindBlankFinds(rest + "\n");
    forall i: nat
      ensures !BlankAt(line + "\n" + (rest + "\n"), i)
    {
      BlankInTwo(line, rest + "\n", i);
    }
    NoBlank(line + "\n" + (rest + "\n"));
    assert line + "\n" + (rest + "\n") == line + "\n" + rest + "\n";
  }

  lemma {:induction false} DataReads(lines: seq<string>)
    requires forall line | line in lines :: '\n' !in line
    ensures DataIn(DataLines(lines)) == lines && NoLfs(DataLines(lines)) && !Naming(DataLines(lines))
    ensures |DataLines(lines)| == |lines|
  {
    if lines != [] {
      assert lines[0] in lines && forall line | line in lines[1..] :: line in lines;
      DataReads(lines[1..]);
      DataLine(lines[0]);
      var all := DataLines(lines);
      assert all[1..] == DataLines(lines[1..]) && all[0] == DATA_LINE + lines[0];
      NamingFirst(all);
      hide DataOf, EVENT, DATA, DATA_LINE;
      assert lines == [lines[0]] + lines[1..];
    }
  }

  lemma DataLine(line: string)
    requires '\n' !in line
    ensures var all := DATA_LINE + line;
      && !(EVENT <= all) && DATA <= all && DataOf(all) == line && all != "" && '\n' !in all
  {
    var all := DATA_LINE + line;
    assert all[0] == 'd' && EVENT[0] == 'e';
    assert all[..5] == DATA && all[5..] == " " + line;
    assert (" " + line)[1..] == line;
  }

  lemma NameLine(name: string)
    requires name != "" && '\n' !in name && !IsSpace(name[0]) && !IsSpace(name[|name| - 1])
    ensures var all := NAME_LINE + name;
      && all != "" && '\n' !in all && NameIn([all], "") == name && DataIn([all]) == []
  {
    var all := NAME_LINE + name;
    var none: seq<string> := [];
    assert all[..6] == EVENT && all[6..] == " " + name && [all][1..] == none;
    assert (" " + name)[1..] == name;
    assert Trim(" " + name) == Trim(name) == name;
  }

  /**
   An event of any name without white space around it and of any text is read back as it was written,
   with what follows it untouched.
   */
  lemma EventReadsBack(name: string, data: string, rest: string)
    requires name != "" && '\n' !in name && !IsSpace(name[0]) && !IsSpace(name[|name| - 1])
    ensures Raws(Written(name, data) + "\n\n" + rest) == [Event(name, data)] + Raws(rest)
  {
    hide *;
    var first, lines := NAME_LINE + name, DataLines(Lines(data));
    NameLine(name);
    LinesJoined(data);
    DataReads(Lines(data));
    assert lines != [] by { SomeLines(data); }
    WrittenIs(name, data);
    JoinedHasNoBlank(lines);
    FirstIsNoLf(lines);
    NoBlankBehind(first, Join(lines));
    BlockThenRest(Written(name, data), rest);
    OneLine(first);
    LinesTogether(first, Join(lines));
    LinesWithout(lines);
    JoinedLines(lines);
    NamesTogether([first], lines, "");
    DataTogether([first], lines);
    NameOfLines(lines, name, name);
    assert [] + Lines(data) == Lines(data);
    RawOf(Written(name, data));
  }

  lemma SomeLines(data: string)
    ensures Lines(data) != []
  {}

  lemma WrittenIs(name: string, data: string)
    ensures Written(name, data) == NAME_LINE + name + "\n" + Join(DataLines(Lines(data)))
  {}

  lemma FirstIsNoLf(lines: seq<string>)
    requires lines != [] && NoLfs(lines)
    ensures lines[0] != "" && lines[0][0] != '\n'
  {
    assert lines[0] in lines && lines[0][0] in lines[0];
  }

  lemma LinesWithout(lines: seq<string>)
    requires NoLfs(lines)
    ensures forall line | line in lines :: '\n' !in line
  {}

  // ----- line ends and white space

  /** Each of the three line ends is one LF, in front of anything that does not complete it. */
  lemma LineEnds(a: string, b: string)
    requires !HasCr(a)
    ensures Lf(a + "\r\n" + b) == a + "\n" + Lf(b)
    ensures Lf(a + "\n" + b) == a + "\n" + Lf(b)
    ensures (b == "" || b[0] != '\n') ==> Lf(a + "\r" + b) == a + "\n" + Lf(b)
  {
    EndsBehind(a, "\r\n", b);
    EndsBehind(a, "\n", b);
    if b == "" || b[0] != '\n' {
      EndsBehind(a, "\r", b);
    }
    hide Lf;
  }

  lemma EndsBehind(a: string, end: string, b: string)
    requires !HasCr(a) && end in ["\r\n", "\n", "\r"] && (end == "\r" && b != "" ==> b[0] != '\n')
    ensures Lf(a + end + b) == a + "\n" + Lf(b)
  {
    AfterPlain(a, end + b);
    LineEnd(end, b);
    hide Lf;
    assert a + (end + b) == a + end + b;
    assert a + ("\n" + Lf(b)) == a + "\n" + Lf(b);
  }

  lemma LineEnd(end: string, b: string)
    requires end in ["\r\n", "\n", "\r"] && (end == "\r" && b != "" ==> b[0] != '\n')
    ensures Lf(end + b) == "\n" + Lf(b)
  {
    var text := end + b;
    assert |end| == 2 ==> text[2..] == b;
    assert |end| == 1 ==> text[1..] == b;
  }

  lemma {:induction false} AfterPlain(a: string, b: string)
    requires !HasCr(a)
    ensures Lf(a + b) == a + Lf(b)
  {
    if a == "" {
      assert a + b == b && "" + Lf(b) == Lf(b);
    } else {
      assert a[0] in a && forall c | c in a[1..] :: c in a;
      AfterPlain(a[1..], b);
      assert (a + b)[1..] == a[1..] + b && a == [a[0]] + a[1..];
    }
  }

  /** White space and line ends of ECMAScript, by code point. */
  lemma SpacesAre(c: char)
    ensures IsSpace(c) <==>
      || 9 <= c as int <= 13 || 0x2000 <= c as int <= 0x200a
      || c as int in {0x20, 0xa0, 0x1680, 0x2028, 0x2029, 0x202f, 0x205f, 0x3000, 0xfeff}
  {}

  /** Trimming takes white space off both ends, and nothing else. */
  lemma {:induction false} TrimIs(text: string) returns (front: string, back: string)
    ensures text == front + Trim(text) + back
    ensures forall c | c in front + back :: IsSpace(c)
    ensures Trim(text) == "" || (!IsSpace(Trim(text)[0]) && !IsSpace(Trim(text)[|Trim(text)| - 1]))
    decreases |text|
  {
    hide IsSpace;
    front, back := "", "";
    if text != "" && IsSpace(text[0]) {
      front, back := TrimIs(text[1..]);
      front := [text[0]] + front;
    } else if text != "" && IsSpace(text[|text| - 1]) {
      front, back := TrimIs(text[..|text| - 1]);
      back := back + [text[|text| - 1]];
    }
  }
}
