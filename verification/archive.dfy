/**
 The check an uploaded Office file passes before anything opens it: the central directory of its
 ZIP archive is read for what it holds, how much it unpacks to and whether it is encrypted, and
 every entry is then inflated once against the same limit.

 Offsets are those of PKWARE's APPNOTE, sections 4.3.12 (central directory header) and 4.3.16
 (end of central directory record).
 */
module Archive {
  import opened Wrappers

  type Byte = b: int | 0 <= b < 256
  type Bytes = seq<Byte>

  const MAX_UNPACKED := 200 * 1024 * 1024
  const MAX_ENTRIES := 5_000
  const U16 := 65_536
  const U32 := 4_294_967_296

  const LOCAL_END: Bytes := [0x50, 0x4b, 5, 6]
  const HEADER: Bytes := [0x50, 0x4b, 1, 2]

  datatype Kind = Docx | Xlsx

  datatype Why = Broken | Zip64 | TooManyEntries | Encrypted | UnpacksTooMuch | Neither

  function U16At(bytes: Bytes, at: nat): Option<nat> {
    if at + 2 <= |bytes| then Some(bytes[at] as int + 256 * bytes[at + 1] as int) else None
  }

  function U32At(bytes: Bytes, at: nat): Option<nat> {
    if at + 4 <= |bytes| then
      Some(bytes[at] as int + 256 * bytes[at + 1] as int + 65_536 * bytes[at + 2] as int
           + 16_777_216 * bytes[at + 3] as int)
    else None
  }

  predicate SignatureAt(bytes: Bytes, at: nat, signature: Bytes) {
    at + |signature| <= |bytes| && bytes[at..at + |signature|] == signature
  }

  // ----- what the directory says

  /** One entry, as its central directory header declares it. */
  datatype Entry = Entry(flags: nat, size: nat, name: Bytes)

  /** The headers read one after the other: all of them, or as many as there were before one was no header. */
  datatype Chain = Done | Cut | Link(entry: Entry, tail: Chain)

  /** The header at `at`, as its entry and where the next header starts. */
  function HeaderOf(bytes: Bytes, at: nat): Option<(Entry, nat)> {
    if !SignatureAt(bytes, at, HEADER) || at + 46 > |bytes| then None
    else
      var nameEnd := at + 46 + U16At(bytes, at + 28).value;
      if nameEnd > |bytes| then None
      else
        var entry := Entry(U16At(bytes, at + 8).value, U32At(bytes, at + 24).value, bytes[at + 46..nameEnd]);
        Some((entry, nameEnd + U16At(bytes, at + 30).value + U16At(bytes, at + 32).value))
  }

  /** The `n` headers from `at` on. */
  function Headers(bytes: Bytes, at: nat, n: nat): Chain
    decreases n
  {
    if n == 0 then Done
    else
      match HeaderOf(bytes, at)
      case None => Cut
      case Some((entry, next)) => Link(entry, Headers(bytes, next, n - 1))
  }

  /** Bytes of `word/document.xml`. */
  const WORD: Bytes := [
    0x77, 0x6f, 0x72, 0x64, 0x2f, 0x64, 0x6f, 0x63, 0x75, 0x6d, 0x65, 0x6e, 0x74, 0x2e, 0x78, 0x6d, 0x6c]

  /** Bytes of `xl/workbook.xml`. */
  const WORKBOOK: Bytes := [0x78, 0x6c, 0x2f, 0x77, 0x6f, 0x72, 0x6b, 0x62, 0x6f, 0x6f, 0x6b, 0x2e, 0x78, 0x6d, 0x6c]

  function KindAfter(kind: Option<Kind>, name: Bytes): Option<Kind> {
    if name == WORD then Some(Docx) else if name == WORKBOOK then Some(Xlsx) else kind
  }

  /** The verdict on a chain of headers, `unpacked` bytes and `kind` into it. */
  function Judge(chain: Chain, unpacked: nat, kind: Option<Kind>): Result<Kind, Why> {
    match chain
    case Done => (match kind case Some(k) => Ok(k) case None => Err(Neither))
    case Cut => Err(Broken)
    case Link(entry, tail) =>
      if entry.flags % 2 == 1 then Err(Encrypted)
      else if unpacked + entry.size > MAX_UNPACKED then Err(UnpacksTooMuch)
      else Judge(tail, unpacked + entry.size, KindAfter(kind, entry.name))
  }

  /**
   Where a record that ends the archive may start: 22 bytes and a comment of at most 64 KiB from
   the end.
   */
  predicate EndAt(bytes: Bytes, at: nat) {
    |bytes| - 22 - 0xffff <= at <= |bytes| - 22 && SignatureAt(bytes, at, LOCAL_END)
  }

  ghost predicate LastEnd(bytes: Bytes, end: Option<nat>) {
    match end
    case Some(at) => EndAt(bytes, at) && forall later | at < later :: !EndAt(bytes, later)
    case None => forall at :: !EndAt(bytes, at)
  }

  /** The verdict of an archive whose end record is at `end`. */
  ghost function JudgeAt(bytes: Bytes, end: Option<nat>): Result<Kind, Why>
    requires LastEnd(bytes, end)
  {
    match end
    case None => Err(Broken)
    case Some(at) =>
      var entries := U16At(bytes, at + 10).value;
      var start := U32At(bytes, at + 16).value;
      if entries == 0xffff || start == U32 - 1 then Err(Zip64)
      else if entries > MAX_ENTRIES then Err(TooManyEntries)
      else Judge(Headers(bytes, start, entries), 0, None)
  }

  /** The last end record, searched for from the end of the archive. */
  method FindEnd(bytes: Bytes) returns (end: Option<nat>)
    ensures LastEnd(bytes, end)
  {
    var earliest := if |bytes| > 22 + 0xffff then |bytes| - (22 + 0xffff) else 0;
    var at := if |bytes| > 21 then |bytes| - 21 else 0;
    while at > earliest
      invariant forall later | at <= later :: !EndAt(bytes, later)
    {
      at := at - 1;
      if SignatureAt(bytes, at, LOCAL_END) {
        return Some(at);
      }
    }
    return None;
  }

  /** Reads the header at `at`, field by field. */
  method ReadHeader(bytes: Bytes, at: nat) returns (header: Option<(Entry, nat)>)
    ensures header == HeaderOf(bytes, at)
  {
    if !SignatureAt(bytes, at, HEADER) {
      return None;
    }
    var flags := U16At(bytes, at + 8);
    var size := U32At(bytes, at + 24);
    var nameLength := U16At(bytes, at + 28);
    var extra := U16At(bytes, at + 30);
    var comment := U16At(bytes, at + 32);
    if flags == None || size == None || nameLength == None || extra == None || comment == None
       || at + 46 + nameLength.value > |bytes| {
      return None;
    }
    var nameEnd := at + 46 + nameLength.value;
    return Some((Entry(flags.value, size.value, bytes[at + 46..nameEnd]), nameEnd + extra.value + comment.value));
  }

  /** The directory's own verdict, and the number of headers looked at. */
  method Directory(bytes: Bytes) returns (verdict: Result<Kind, Why>, visited: nat, ghost end: Option<nat>)
    ensures LastEnd(bytes, end) && verdict == JudgeAt(bytes, end)
    ensures visited <= MAX_ENTRIES
  {
    visited := 0;
    var found := FindEnd(bytes);
    end := found;
    if found == None {
      return Err(Broken), visited, end;
    }
    var entries := U16At(bytes, found.value + 10).value;
    var start := U32At(bytes, found.value + 16).value;
    if entries == 0xffff || start == U32 - 1 {
      return Err(Zip64), visited, end;
    }
    if entries > MAX_ENTRIES {
      return Err(TooManyEntries), visited, end;
    }
    verdict, visited := JudgeHeaders(bytes, start, entries);
  }

  /** Reads `entries` headers from `start` on, up to the first that decides. */
  method JudgeHeaders(bytes: Bytes, start: nat, entries: nat) returns (verdict: Result<Kind, Why>, visited: nat)
    ensures verdict == Judge(Headers(bytes, start, entries), 0, None)
    ensures visited <= entries
  {
    hide HeaderOf, Headers, Judge, KindAfter;
    visited := 0;
    var at: nat := start;
    var unpacked: nat := 0;
    var kind := None;
    while visited < entries
      invariant visited <= entries
      invariant Judge(Headers(bytes, start, entries), 0, None)
        == Judge(Headers(bytes, at, entries - visited), unpacked, kind)
      decreases entries - visited
    {
      JudgeStep(bytes, at, entries - visited, unpacked, kind);
      visited := visited + 1;
      var header := ReadHeader(bytes, at);
      if header == None {
        return Err(Broken), visited;
      }
      var (entry, next) := header.value;
      if entry.flags % 2 == 1 {
        return Err(Encrypted), visited;
      }
      unpacked := unpacked + entry.size;
      if unpacked > MAX_UNPACKED {
        return Err(UnpacksTooMuch), visited;
      }
      kind := KindAfter(kind, entry.name);
      at := next;
    }
    JudgeEnd(bytes, at, unpacked, kind);
    match kind {
      case Some(k) => return Ok(k), visited;
      case None => return Err(Neither), visited;
    }
  }

  lemma JudgeStep(bytes: Bytes, at: nat, n: nat, unpacked: nat, kind: Option<Kind>)
    requires n > 0
    ensures Judge(Headers(bytes, at, n), unpacked, kind) ==
      match HeaderOf(bytes, at)
      case None => Err(Broken)
      case Some((entry, next)) =>
        if entry.flags % 2 == 1 then Err(Encrypted)
        else if unpacked + entry.size > MAX_UNPACKED then Err(UnpacksTooMuch)
        else Judge(Headers(bytes, next, n - 1), unpacked + entry.size, KindAfter(kind, entry.name))
  {
    hide HeaderOf;
  }

  lemma JudgeEnd(bytes: Bytes, at: nat, unpacked: nat, kind: Option<Kind>)
    ensures Judge(Headers(bytes, at, 0), unpacked, kind) == match kind case Some(k) => Ok(k) case None => Err(Neither)
  {}

  // ----- what a verdict means

  function Entries(chain: Chain): seq<Entry> {
    if chain.Link? then [chain.entry] + Entries(chain.tail) else []
  }

  predicate Complete(chain: Chain) {
    if chain.Link? then Complete(chain.tail) else chain.Done?
  }

  function Total(entries: seq<Entry>): nat {
    if entries == [] then 0 else entries[0].size + Total(entries[1..])
  }

  /** The kind of the last entry that names one, else `kind`. */
  function KindOf(entries: seq<Entry>, kind: Option<Kind>): Option<Kind> {
    if entries == [] then kind else KindOf(entries[1..], KindAfter(kind, entries[0].name))
  }

  /** Entry `i` is refused where it stands, `base` bytes before the first: encrypted, or past the limit. */
  predicate Faulty(entries: seq<Entry>, base: nat, i: nat)
    requires i < |entries|
  {
    entries[i].flags % 2 == 1 || base + Total(entries[..i + 1]) > MAX_UNPACKED
  }

  lemma FaultyTail(entries: seq<Entry>, base: nat, i: nat)
    requires 0 < i < |entries|
    ensures Faulty(entries, base, i) <==> Faulty(entries[1..], base + entries[0].size, i - 1)
  {
    assert entries[..i + 1][1..] == entries[1..][..i];
  }

  lemma FaultyFirst(entries: seq<Entry>, base: nat)
    requires entries != []
    ensures Faulty(entries, base, 0) <==> entries[0].flags % 2 == 1 || base + entries[0].size > MAX_UNPACKED
  {
    assert entries[..1] == [entries[0]];
    assert Total([entries[0]]) == entries[0].size;
  }

  /** The first faulty entry decides the refusal, whatever comes after it. */
  lemma {:induction false} FirstFaultDecides(chain: Chain, base: nat, kind: Option<Kind>, i: nat)
    requires i < |Entries(chain)| && Faulty(Entries(chain), base, i)
    requires forall j: nat | j < i :: !Faulty(Entries(chain), base, j)
    ensures Judge(chain, base, kind) == Err(if Entries(chain)[i].flags % 2 == 1 then Encrypted else UnpacksTooMuch)
  {
    hide KindAfter;
    var es := Entries(chain);
    FaultyFirst(es, base);
    if i > 0 {
      assert !Faulty(es, base, 0);
      LaterFault(es, es[1..], base, base + es[0].size, i);
      FirstFaultDecides(chain.tail, base + es[0].size, KindAfter(kind, es[0].name), i - 1);
    }
  }

  lemma LaterFault(es: seq<Entry>, tail: seq<Entry>, base: nat, after: nat, i: nat)
    requires es != [] && tail == es[1..] && after == base + es[0].size
    requires 0 < i < |es| && Faulty(es, base, i) && forall j: nat | j < i :: !Faulty(es, base, j)
    ensures Faulty(tail, after, i - 1)
    ensures forall j: nat | j < i - 1 :: !Faulty(tail, after, j)
  {
    FaultyTail(es, base, i);
    forall j: nat | j < i - 1
      ensures !Faulty(tail, after, j)
    {
      FaultyTail(es, base, j + 1);
    }
  }

  /** With no faulty entry the verdict is the last kind named, if the chain was read to its end. */
  lemma {:induction false} NoFaultDecides(chain: Chain, base: nat, kind: Option<Kind>)
    requires base <= MAX_UNPACKED
    requires forall i: nat | i < |Entries(chain)| :: !Faulty(Entries(chain), base, i)
    ensures base + Total(Entries(chain)) <= MAX_UNPACKED
    ensures Judge(chain, base, kind) ==
      if !Complete(chain) then Err(Broken)
      else match KindOf(Entries(chain), kind) case Some(k) => Ok(k) case None => Err(Neither)
  {
    var es := Entries(chain);
    if chain.Link? {
      FaultyFirst(es, base);
      assert !Faulty(es, base, 0);
      var tail, after := es[1..], base + es[0].size;
      forall j: nat | j < |es| - 1
        ensures !Faulty(tail, after, j)
      {
        FaultyTail(es, base, j + 1);
      }
      NoFaultDecides(chain.tail, base + es[0].size, KindAfter(kind, es[0].name));
    }
  }

  lemma {:induction false} TotalGrows(entries: seq<Entry>, k: nat)
    requires k <= |entries|
    ensures Total(entries[..k]) <= Total(entries)
  {
    if k > 0 {
      assert entries[..k][1..] == entries[1..][..k - 1];
      TotalGrows(entries[1..], k - 1);
    }
  }

  /** What every accepted directory is, and every directory that is all this is accepted. */
  predicate Fits(chain: Chain, kind: Kind) {
    && Complete(chain)
    && (forall e | e in Entries(chain) :: e.flags % 2 == 0)
    && Total(Entries(chain)) <= MAX_UNPACKED
    && KindOf(Entries(chain), None) == Some(kind)
  }

  lemma AcceptedExactly(chain: Chain, kind: Kind)
    ensures Judge(chain, 0, None) == Ok(kind) <==> Fits(chain, kind)
  {
    var es := Entries(chain);
    if i: nat :| i < |es| && Faulty(es, 0, i) {
      var first := FirstFault(es, i);
      FirstFaultDecides(chain, 0, None, first);
      TotalGrows(es, first + 1);
      assert es[first] in es;
    } else {
      NoFaultDecides(chain, 0, None);
      forall e | e in es
        ensures e.flags % 2 == 0
      {
        var i: nat :| i < |es| && es[i] == e;
        assert !Faulty(es, 0, i);
      }
    }
  }

  lemma {:induction false} FirstFault(entries: seq<Entry>, i: nat) returns (first: nat)
    requires i < |entries| && Faulty(entries, 0, i)
    ensures first <= i && Faulty(entries, 0, first) && forall j: nat | j < first :: !Faulty(entries, 0, j)
  {
    if j: nat :| j < i && Faulty(entries, 0, j) {
      first := FirstFault(entries, j);
    } else {
      first := i;
    }
  }

  /** Entries before one that names a kind do not matter, and neither do entries after it that name none. */
  lemma {:induction false} LastNameDecides(entries: seq<Entry>, kind: Option<Kind>, i: nat)
    requires i < |entries| && KindAfter(None, entries[i].name) != None
    requires forall j: nat | i < j < |entries| :: KindAfter(None, entries[j].name) == None
    ensures KindOf(entries, kind) == KindAfter(None, entries[i].name)
  {
    if i > 0 {
      LastNameDecides(entries[1..], KindAfter(kind, entries[0].name), i - 1);
    } else {
      NoNameKeeps(entries[1..], KindAfter(kind, entries[0].name));
    }
  }

  lemma {:induction false} NoNameKeeps(entries: seq<Entry>, kind: Option<Kind>)
    requires forall j: nat | j < |entries| :: KindAfter(None, entries[j].name) == None
    ensures KindOf(entries, kind) == kind
  {
    if entries != [] {
      NoNameKeeps(entries[1..], kind);
    }
  }

  // ----- the layout the reader reads

  /**
   One entry as it is laid out in the directory; `versions`, `stamps` and `attributes` are fields
   nothing here reads.
   */
  datatype Record = Record(
    versions: Bytes, flags: nat, stamps: Bytes, size: nat, attributes: Bytes, name: Bytes, extra: Bytes, comment: Bytes)

  predicate Fitting(r: Record) {
    && |r.versions| == 4 && |r.stamps| == 14 && |r.attributes| == 12
    && r.flags < U16 && r.size < U32 && |r.name| < U16 && |r.extra| < U16 && |r.comment| < U16
  }

  function U16Bytes(n: nat): Bytes
    requires n < U16
  {
    [n % 256, n / 256]
  }

  function U32Bytes(n: nat): Bytes
    requires n < U32
  {
    [n % 256, n / 256 % 256, n / 65_536 % 256, n / 16_777_216]
  }

  function Fixed(r: Record): Bytes
    requires Fitting(r)
  {
    HEADER + r.versions + U16Bytes(r.flags) + r.stamps + U32Bytes(r.size) + U16Bytes(|r.name|)
    + U16Bytes(|r.extra|) + U16Bytes(|r.comment|) + r.attributes
  }

  function Laid(r: Record): Bytes
    requires Fitting(r)
  {
    Fixed(r) + r.name + (r.extra + r.comment)
  }

  function LaidAll(records: seq<Record>): Bytes
    requires forall r | r in records :: Fitting(r)
  {
    if records == [] then [] else Laid(records[0]) + LaidAll(records[1..])
  }

  /** The end record in front of a comment of `n` bytes. */
  function EndRecord(disks: Bytes, count: nat, size: Bytes, start: nat, n: nat): Bytes
    requires count < U16 && start < U32 && n < U16
  {
    LOCAL_END + disks + U16Bytes(count) + U16Bytes(count) + size + U32Bytes(start) + U16Bytes(n)
  }

  /**
   What an archive is laid out from: the entries' own bytes, the directory, fields nothing here
   reads, and the comment.
   */
  datatype Layout = Layout(locals: Bytes, records: seq<Record>, disks: Bytes, size: Bytes, comment: Bytes)

  predicate Whole(z: Layout) {
    && (forall r | r in z.records :: Fitting(r))
    && |z.records| < U16 && |z.locals| < U32 && |z.disks| == 4 && |z.size| == 4 && |z.comment| < U16
  }

  function Tail(z: Layout): Bytes
    requires Whole(z)
  {
    EndRecord(z.disks, |z.records|, z.size, |z.locals|, |z.comment|) + z.comment
  }

  /** The archive: the entries' own bytes, the directory, the end record and the comment. */
  function Zip(z: Layout): Bytes
    requires Whole(z)
  {
    z.locals + LaidAll(z.records) + Tail(z)
  }

  /** Where its end record starts. */
  function OwnEnd(z: Layout): nat
    requires Whole(z)
  {
    |z.locals| + |LaidAll(z.records)|
  }

  /**
   Whether no later signature, in the comment or a field of the end record, can be taken for the
   end record.
   */
  predicate NoLaterEnd(tail: Bytes) {
    forall i: nat | 0 < i <= |tail| - 22 :: !SignatureAt(tail, i, LOCAL_END)
  }

  function EntryOf(r: Record): Entry {
    Entry(r.flags, r.size, r.name)
  }

  function ChainOf(records: seq<Record>): Chain {
    if records == [] then Done else Link(EntryOf(records[0]), ChainOf(records[1..]))
  }

  lemma FixedFields(r: Record)
    requires Fitting(r)
    ensures var f := Fixed(r);
      && |f| == 46 && SignatureAt(f, 0, HEADER) && U16At(f, 8) == Some(r.flags) && U32At(f, 24) == Some(r.size)
      && U16At(f, 28) == Some(|r.name|) && U16At(f, 30) == Some(|r.extra|) && U16At(f, 32) == Some(|r.comment|)
  {
    var f := Fixed(r);
    FixedParts(r);
    hide Fixed, U16Bytes, U32Bytes;
    U16Read(f, 8, r.flags);
    U32Read(f, 24, r.size);
    U16Read(f, 28, |r.name|);
    U16Read(f, 30, |r.extra|);
    U16Read(f, 32, |r.comment|);
  }

  lemma FixedParts(r: Record)
    requires Fitting(r)
    ensures var f := Fixed(r);
      && |f| == 46 && f[0..4] == HEADER == [0x50, 0x4b, 1, 2]
      && f[8..10] == U16Bytes(r.flags) && f[24..28] == U32Bytes(r.size)
      && f[28..30] == U16Bytes(|r.name|) && f[30..32] == U16Bytes(|r.extra|) && f[32..34] == U16Bytes(|r.comment|)
  {
    hide U16Bytes, U32Bytes;
    U16Is2(r.flags);
    U16Is2(|r.name|);
    U16Is2(|r.extra|);
    U16Is2(|r.comment|);
    U32Is4(r.size);
  }

  lemma U16Is2(n: nat)
    requires n < U16
    ensures |U16Bytes(n)| == 2
  {}

  lemma U32Is4(n: nat)
    requires n < U32
    ensures |U32Bytes(n)| == 4
  {}

  lemma U16Read(f: Bytes, at: nat, n: nat)
    requires at + 2 <= |f| && n < U16 && f[at..at + 2] == U16Bytes(n)
    ensures U16At(f, at) == Some(n)
  {
    assert f[at] == f[at..at + 2][0] && f[at + 1] == f[at..at + 2][1];
  }

  lemma U32Read(f: Bytes, at: nat, n: nat)
    requires at + 4 <= |f| && n < U32 && f[at..at + 4] == U32Bytes(n)
    ensures U32At(f, at) == Some(n)
  {
    var part := f[at..at + 4];
    assert f[at] == part[0] && f[at + 1] == part[1] && f[at + 2] == part[2] && f[at + 3] == part[3];
    FourDigits(n);
  }

  lemma FourDigits(n: nat)
    ensures n % 256 + 256 * (n / 256 % 256) + 65_536 * (n / 65_536 % 256) + 16_777_216 * (n / 16_777_216) == n
  {
    assert n / 65_536 == n / 256 / 256 && n / 16_777_216 == n / 65_536 / 256;
  }

  // A field is read from any place its bytes stand at.

  lemma ByteMoves(f: Bytes, bytes: Bytes, at: nat, i: nat)
    requires at + |f| <= |bytes| && bytes[at..at + |f|] == f && i < |f|
    ensures bytes[at + i] == f[i]
  {
    assert bytes[at..at + |f|][i] == f[i];
  }

  lemma U16Moves(f: Bytes, bytes: Bytes, at: nat, k: nat)
    requires at + |f| <= |bytes| && bytes[at..at + |f|] == f && k + 2 <= |f|
    ensures U16At(bytes, at + k) == U16At(f, k)
  {
    ByteMoves(f, bytes, at, k);
    ByteMoves(f, bytes, at, k + 1);
  }

  lemma U32Moves(f: Bytes, bytes: Bytes, at: nat, k: nat)
    requires at + |f| <= |bytes| && bytes[at..at + |f|] == f && k + 4 <= |f|
    ensures U32At(bytes, at + k) == U32At(f, k)
  {
    ByteMoves(f, bytes, at, k);
    ByteMoves(f, bytes, at, k + 1);
    ByteMoves(f, bytes, at, k + 2);
    ByteMoves(f, bytes, at, k + 3);
  }

  lemma SignatureMoves(f: Bytes, bytes: Bytes, at: nat, signature: Bytes)
    requires at + |f| <= |bytes| && bytes[at..at + |f|] == f && SignatureAt(f, 0, signature)
    ensures SignatureAt(bytes, at, signature)
  {
    var n := |signature|;
    assert bytes[at..at + |f|][..n] == bytes[at..at + n];
    assert f[0..n] == f[..n];
  }

  lemma FixedMoves(f: Bytes, bytes: Bytes, at: nat, r: Record)
    requires Fitting(r) && f == Fixed(r)
    requires at + |f| <= |bytes| && bytes[at..at + |f|] == f
    ensures SignatureAt(bytes, at, HEADER)
    ensures U16At(bytes, at + 8) == Some(r.flags) && U32At(bytes, at + 24) == Some(r.size)
    ensures U16At(bytes, at + 28) == Some(|r.name|) && U16At(bytes, at + 30) == Some(|r.extra|)
    ensures U16At(bytes, at + 32) == Some(|r.comment|)
  {
    hide Fixed, U16At, U32At, SignatureAt;
    FixedFields(r);
    SignatureMoves(f, bytes, at, HEADER);
    U16Moves(f, bytes, at, 8);
    U32Moves(f, bytes, at, 24);
    U16Moves(f, bytes, at, 28);
    U16Moves(f, bytes, at, 30);
    U16Moves(f, bytes, at, 32);
  }

  lemma HeaderReadsBack(bytes: Bytes, at: nat, r: Record)
    requires Fitting(r) && at + |Laid(r)| <= |bytes| && bytes[at..at + |Laid(r)|] == Laid(r)
    ensures HeaderOf(bytes, at) == Some((EntryOf(r), at + |Laid(r)|))
  {
    hide Fixed, Laid, U16At, U32At, SignatureAt;
    LaidParts(r);
    FixedFields(r);
    var laid := Laid(r);
    SliceMoves(laid, bytes, at, 0, 46);
    SliceMoves(laid, bytes, at, 46, 46 + |r.name|);
    FixedMoves(Fixed(r), bytes, at, r);
  }

  lemma SliceMoves(f: Bytes, bytes: Bytes, at: nat, i: nat, j: nat)
    requires at + |f| <= |bytes| && bytes[at..at + |f|] == f && i <= j <= |f|
    ensures bytes[at + i..at + j] == f[i..j]
  {
    var moved, part := bytes[at + i..at + j], f[i..j];
    forall k | 0 <= k < j - i
      ensures moved[k] == part[k]
    {
      ByteMoves(f, bytes, at, i + k);
    }
  }

  lemma LaidParts(r: Record)
    requires Fitting(r)
    ensures var laid := Laid(r);
      |laid| == 46 + |r.name| + |r.extra| + |r.comment|
      && laid[0..46] == Fixed(r) && laid[46..46 + |r.name|] == r.name
  {
    FixedFields(r);
  }

  lemma {:induction false} DirectoryReadsBack(bytes: Bytes, at: nat, records: seq<Record>)
    requires forall r | r in records :: Fitting(r)
    requires at + |LaidAll(records)| <= |bytes| && bytes[at..at + |LaidAll(records)|] == LaidAll(records)
    ensures Headers(bytes, at, |records|) == ChainOf(records)
    decreases records
  {
    hide HeaderOf, Laid, Fitting, LaidAll, Headers, ChainOf;
    if records == [] {
      NoHeaders(bytes, at);
    } else {
      var laid, rest := Laid(records[0]), LaidAll(records[1..]);
      LaidFirst(records);
      SlicesApart(bytes, at, laid, rest);
      HeaderReadsBack(bytes, at, records[0]);
      DirectoryReadsBack(bytes, at + |laid|, records[1..]);
      OneMoreHeader(bytes, at, at + |laid|, records);
    }
  }

  lemma NoHeaders(bytes: Bytes, at: nat)
    ensures Headers(bytes, at, 0) == ChainOf([])
  {}

  lemma LaidFirst(records: seq<Record>)
    requires records != [] && forall r | r in records :: Fitting(r)
    ensures LaidAll(records) == Laid(records[0]) + LaidAll(records[1..])
  {
    hide Laid, Fitting;
  }

  lemma OneMoreHeader(bytes: Bytes, at: nat, next: nat, records: seq<Record>)
    requires records != [] && HeaderOf(bytes, at) == Some((EntryOf(records[0]), next))
    requires Headers(bytes, next, |records| - 1) == ChainOf(records[1..])
    ensures Headers(bytes, at, |records|) == ChainOf(records)
  {
    hide HeaderOf, EntryOf;
  }

  lemma SlicesApart(bytes: Bytes, at: nat, a: Bytes, b: Bytes)
    requires at + |a| + |b| <= |bytes| && bytes[at..at + |a| + |b|] == a + b
    ensures bytes[at..at + |a|] == a && bytes[at + |a|..at + |a| + |b|] == b
  {
    SliceMoves(a + b, bytes, at, 0, |a|);
    SliceMoves(a + b, bytes, at, |a|, |a| + |b|);
  }

  lemma EndFields(disks: Bytes, count: nat, size: Bytes, start: nat, n: nat)
    requires count < U16 && start < U32 && |disks| == 4 && |size| == 4 && n < U16
    ensures var e := EndRecord(disks, count, size, start, n);
      |e| == 22 && SignatureAt(e, 0, LOCAL_END) && U16At(e, 10) == Some(count) && U32At(e, 16) == Some(start)
  {
    var e := EndRecord(disks, count, size, start, n);
    EndParts(disks, count, size, start, n);
    hide EndRecord, U16Bytes, U32Bytes;
    U16Read(e, 10, count);
    U32Read(e, 16, start);
  }

  lemma EndParts(disks: Bytes, count: nat, size: Bytes, start: nat, n: nat)
    requires count < U16 && start < U32 && |disks| == 4 && |size| == 4 && n < U16
    ensures var e := EndRecord(disks, count, size, start, n);
      && |e| == 22 && e[0..4] == LOCAL_END == [0x50, 0x4b, 5, 6]
      && e[10..12] == U16Bytes(count) && e[16..20] == U32Bytes(start)
  {
    hide U16Bytes, U32Bytes;
    U16Is2(count);
    U16Is2(n);
    U32Is4(start);
  }

  /**
   The search finds an archive's own end record exactly when no later signature can be taken for one,
   and then the archive is judged by exactly the entries it was laid out from: the count, the start,
   and every entry's flags, size and name read back as written. Without a comment it always is.
   */
  lemma ZipReadsBack(z: Layout, end: Option<nat>)
    requires Whole(z) && LastEnd(Zip(z), end)
    ensures end == Some(OwnEnd(z)) <==> NoLaterEnd(Tail(z))
    ensures z.comment == [] ==> NoLaterEnd(Tail(z))
    ensures NoLaterEnd(Tail(z)) ==>
      (JudgeAt(Zip(z), end)
       == if |z.records| == 0xffff || |z.locals| == U32 - 1 then Err(Zip64)
          else if |z.records| > MAX_ENTRIES then Err(TooManyEntries)
          else Judge(ChainOf(z.records), 0, None))
  {
    hide *;
    ZipParts(z);
    OnlyEnd(Zip(z), OwnEnd(z), Tail(z), end);
    NoCommentNoLaterEnd(z);
    assert Headers(Zip(z), |z.locals|, |z.records|) == ChainOf(z.records) by {
      RecordsFit(z);
      DirectoryReadsBack(Zip(z), |z.locals|, z.records);
    }
    if NoLaterEnd(Tail(z)) {
      JudgedFrom(Zip(z), OwnEnd(z), |z.records|, |z.locals|, ChainOf(z.records));
    }
  }

  lemma RecordsFit(z: Layout)
    requires Whole(z)
    ensures (forall r | r in z.records :: Fitting(r)) && |z.locals| < U32 && |z.records| < U16
  {}

  lemma NoCommentNoLaterEnd(z: Layout)
    requires Whole(z)
    ensures z.comment == [] ==> NoLaterEnd(Tail(z))
  {
    EndFields(z.disks, |z.records|, z.size, |z.locals|, |z.comment|);
    hide EndRecord, Fitting, SignatureAt;
  }

  lemma OnlyEnd(bytes: Bytes, own: nat, tail: Bytes, end: Option<nat>)
    requires LastEnd(bytes, end) && own <= |bytes| && bytes[own..] == tail && 22 <= |tail| < 22 + U16
    requires SignatureAt(tail, 0, LOCAL_END)
    ensures end == Some(own) <==> NoLaterEnd(tail)
  {
    EndsInTail(bytes, own, tail);
    if NoLaterEnd(tail) {
      OneEnd(bytes, end, Some(own)) by {
        hide EndAt, SignatureAt;
        assert forall later | own < later :: EndAt(bytes, later) ==> later - own <= |tail| - 22;
      }
    }
    hide EndAt, SignatureAt;
    if end == Some(own) {
      forall i: nat | 0 < i <= |tail| - 22
        ensures !SignatureAt(tail, i, LOCAL_END)
      {
        assert !EndAt(bytes, own + i);
      }
    }
  }

  // From the own end record on, an end is where the tail has a signature.
  lemma EndsInTail(bytes: Bytes, own: nat, tail: Bytes)
    requires own <= |bytes| && bytes[own..] == tail && 22 <= |tail| < 22 + U16
    ensures forall at: nat | own <= at ::
      EndAt(bytes, at) <==> at - own <= |tail| - 22 && SignatureAt(tail, at - own, LOCAL_END)
  {
    forall at: nat | own <= at
      ensures EndAt(bytes, at) <==> at - own <= |tail| - 22 && SignatureAt(tail, at - own, LOCAL_END)
    {
      if at + 4 <= |bytes| {
        assert bytes[at..at + 4] == tail[at - own..at - own + 4];
      }
    }
  }

  lemma JudgedFrom(bytes: Bytes, at: nat, entries: nat, start: nat, chain: Chain)
    requires LastEnd(bytes, Some(at))
    requires U16At(bytes, at + 10) == Some(entries) && U32At(bytes, at + 16) == Some(start)
    requires Headers(bytes, start, entries) == chain
    ensures JudgeAt(bytes, Some(at))
      == if entries == 0xffff || start == U32 - 1 then Err(Zip64)
         else if entries > MAX_ENTRIES then Err(TooManyEntries)
         else Judge(chain, 0, None)
  {
    hide Headers, Judge, U16At, U32At, SignatureAt;
  }

  lemma ZipParts(z: Layout)
    requires Whole(z)
    ensures var bytes, own := Zip(z), OwnEnd(z);
      && own <= |bytes| && bytes[own..] == Tail(z) && 22 <= |Tail(z)| < 22 + U16
      && |z.locals| + |LaidAll(z.records)| == own && bytes[|z.locals|..own] == LaidAll(z.records)
      && SignatureAt(Tail(z), 0, LOCAL_END)
      && U16At(bytes, own + 10) == Some(|z.records|) && U32At(bytes, own + 16) == Some(|z.locals|)
  {
    var e := EndRecord(z.disks, |z.records|, z.size, |z.locals|, |z.comment|);
    EndFields(z.disks, |z.records|, z.size, |z.locals|, |z.comment|);
    hide EndRecord, LaidAll, Fitting, U16At, U32At, SignatureAt;
    ThreeParts(z.locals, LaidAll(z.records), Tail(z));
    EndMoves(e, z.comment, Zip(z), OwnEnd(z));
  }

  lemma ThreeParts(a: Bytes, b: Bytes, c: Bytes)
    ensures var all := a + b + c;
      |all| == |a| + |b| + |c| && all[|a|..|a| + |b|] == b && all[|a| + |b|..] == c
  {}

  lemma EndMoves(e: Bytes, comment: Bytes, bytes: Bytes, at: nat)
    requires |e| == 22 && at <= |bytes| && SignatureAt(e, 0, LOCAL_END) && bytes[at..] == e + comment
    ensures SignatureAt(e + comment, 0, LOCAL_END)
    ensures U16At(bytes, at + 10) == U16At(e, 10) && U32At(bytes, at + 16) == U32At(e, 16)
  {
    hide U16At, U32At, SignatureAt;
    assert bytes[at..at + 22] == bytes[at..][..22] == e;
    assert (e + comment)[0..22] == e;
    SignatureMoves(e, e + comment, 0, LOCAL_END);
    U16Moves(e, bytes, at, 10);
    U32Moves(e, bytes, at, 16);
  }

  function EntriesOf(records: seq<Record>): (entries: seq<Entry>)
    ensures |entries| == |records|
    ensures forall i | 0 <= i < |records| :: entries[i] == EntryOf(records[i])
  {
    if records == [] then [] else [EntryOf(records[0])] + EntriesOf(records[1..])
  }

  lemma {:induction false} ChainOfRecords(records: seq<Record>)
    ensures Complete(ChainOf(records)) && Entries(ChainOf(records)) == EntriesOf(records)
  {
    if records != [] {
      ChainOfRecords(records[1..]);
    }
  }

  // ----- what the entries really unpack to

  /** One entry as inflating it goes: so many bytes come out, and then it ends or turns out broken. */
  datatype Stream = Stream(bytes: nat, breaks: bool)

  function Inflated(streams: seq<Stream>): nat {
    if streams == [] then 0 else streams[0].bytes + Inflated(streams[1..])
  }

  /** Entry `i` ends the pass: it breaks, or the bytes up to its end are past the limit. */
  predicate Ends(streams: seq<Stream>, i: nat)
    requires i < |streams|
  {
    streams[i].breaks || Inflated(streams[..i + 1]) > MAX_UNPACKED
  }

  predicate FirstEnd(streams: seq<Stream>, i: nat) {
    i < |streams| && Ends(streams, i) && forall j: nat | j < i :: !Ends(streams, j)
  }

  /**
   What is wrong with an archive whose first entry to end the pass is `i`: it gets past the limit,
   or breaks before.
   */
  function FaultAt(streams: seq<Stream>, i: nat): Why
    requires i < |streams|
  {
    if Inflated(streams[..i + 1]) > MAX_UNPACKED then UnpacksTooMuch else Broken
  }

  /** Whether `fault` is what the pass finds wrong: nothing, or the fault of the first entry to end it. */
  ghost predicate PassFinds(streams: seq<Stream>, fault: Option<Why>) {
    match fault
    case None => forall i: nat | i < |streams| :: !Ends(streams, i)
    case Some(why) => exists i: nat | i < |streams| :: FirstEnd(streams, i) && why == FaultAt(streams, i)
  }

  /**
   Inflates the entries one after the other, each read cut one byte past what is left of the
   limit. `archive` is what the ZIP reader makes of the file; `read` counts the bytes inflated.
   */
  method InflatedWithin(archive: Option<seq<Stream>>) returns (fault: Option<Why>, read: nat)
    ensures read <= MAX_UNPACKED + 1
    ensures match archive case None => fault == Some(Broken) case Some(streams) => PassFinds(streams, fault)
    ensures fault == None ==> read == Inflated(archive.value)
    ensures fault == Some(UnpacksTooMuch) ==> read == MAX_UNPACKED + 1
  {
    read := 0;
    if archive == None {
      return Some(Broken), read;
    }
    var left: int := MAX_UNPACKED;
    var streams := archive.value;
    assert streams[..0] == [];
    for index := 0 to |streams|
      invariant 0 <= left && read == MAX_UNPACKED - left == Inflated(streams[..index])
      invariant forall i: nat | i < index :: !Ends(streams, i)
    {
      var entry := streams[index];
      InflatedMore(streams, index);
      hide Inflated;
      var copied := if entry.bytes < left + 1 then entry.bytes else left + 1;
      if entry.breaks && entry.bytes < left + 1 {
        assert FirstEnd(streams, index);
        return Some(Broken), read + copied;
      }
      read := read + copied;
      if left - copied < 0 {
        assert FirstEnd(streams, index);
        return Some(UnpacksTooMuch), read;
      }
      left := left - copied;
    }
    assert streams[..|streams|] == streams;
    return None, read;
  }

  lemma {:induction false} InflatedMore(streams: seq<Stream>, i: nat)
    requires i < |streams|
    ensures Inflated(streams[..i + 1]) == Inflated(streams[..i]) + streams[i].bytes
  {
    if i == 0 {
      assert streams[..1] == [streams[0]];
      assert streams[..1][1..] == [];
    } else {
      InflatedMore(streams[1..], i - 1);
      assert streams[..i + 1][1..] == streams[1..][..i] && streams[..i][1..] == streams[1..][..i - 1];
    }
  }

  lemma {:induction false} InflatedGrows(streams: seq<Stream>, i: nat)
    requires i <= |streams|
    ensures Inflated(streams[..i]) <= Inflated(streams)
    decreases |streams| - i
  {
    if i < |streams| {
      InflatedMore(streams, i);
      InflatedGrows(streams, i + 1);
    } else {
      assert streams[..i] == streams;
    }
  }

  /** The pass lets an archive through exactly when nothing in it breaks and all of it fits the limit. */
  lemma InflatesExactly(streams: seq<Stream>, fault: Option<Why>)
    requires PassFinds(streams, fault)
    ensures fault == None <==> (forall s | s in streams :: !s.breaks) && Inflated(streams) <= MAX_UNPACKED
  {
    hide Inflated;
    if fault == None {
      forall s | s in streams
        ensures !s.breaks
      {
        var i: nat :| i < |streams| && streams[i] == s;
        assert !Ends(streams, i);
      }
      assert streams[..|streams|] == streams;
      if streams != [] {
        assert !Ends(streams, |streams| - 1);
      } else {
        NothingInflates();
      }
    } else {
      var i: nat :| i < |streams| && FirstEnd(streams, i);
      InflatedGrows(streams, i + 1);
    }
  }

  lemma NothingInflates()
    ensures Inflated([]) == 0
  {}

  /** It finds one thing. */
  lemma OneFault(streams: seq<Stream>, a: Option<Why>, b: Option<Why>)
    requires PassFinds(streams, a) && PassFinds(streams, b)
    ensures a == b
  {
    hide Ends, FaultAt;
    if a.Some? {
      var i: nat :| i < |streams| && FirstEnd(streams, i) && a.value == FaultAt(streams, i);
      if b.Some? {
        var k: nat :| k < |streams| && FirstEnd(streams, k) && b.value == FaultAt(streams, k);
        assert i == k;
      }
    }
  }

  /**
   What the whole check answers: the directory's refusal, else what the inflating pass finds, else
   the kind.
   */
  ghost predicate Answers(bytes: Bytes, archive: Option<seq<Stream>>, end: Option<nat>, verdict: Result<Kind, Why>)
    requires LastEnd(bytes, end)
  {
    if JudgeAt(bytes, end).Err? then verdict == JudgeAt(bytes, end)
    else match archive
      case None => verdict == Err(Broken)
      case Some(streams) =>
        if verdict.Ok? then PassFinds(streams, None) && verdict == JudgeAt(bytes, end)
        else PassFinds(streams, Some(verdict.error))
  }

  /** The whole check of an Office file: the directory first, then the inflating pass. */
  method Office(bytes: Bytes, archive: Option<seq<Stream>>) returns (verdict: Result<Kind, Why>)
    ensures forall end | LastEnd(bytes, end) :: Answers(bytes, archive, end, verdict)
  {
    hide JudgeAt, PassFinds;
    var declared, _, at := Directory(bytes);
    forall end | LastEnd(bytes, end)
      ensures end == at
    {
      OneEnd(bytes, end, at);
    }
    hide LastEnd;
    if declared.Err? {
      return declared;
    }
    var fault, _ := InflatedWithin(archive);
    if fault.Some? {
      return Err(fault.value);
    }
    return declared;
  }

  /** There is one last end record. */
  lemma OneEnd(bytes: Bytes, a: Option<nat>, b: Option<nat>)
    requires LastEnd(bytes, a) && LastEnd(bytes, b)
    ensures a == b
  {
    hide EndAt;
    if a.Some? && b.Some? {
      assert a.value <= b.value && b.value <= a.value;
    }
  }

  /** An Office file is taken exactly when its directory is and what it really unpacks to fits the limit. */
  lemma TakenExactly(
    bytes: Bytes, archive: Option<seq<Stream>>, end: Option<nat>, verdict: Result<Kind, Why>, kind: Kind)
    requires LastEnd(bytes, end) && Answers(bytes, archive, end, verdict)
    ensures verdict == Ok(kind) <==>
      && JudgeAt(bytes, end) == Ok(kind)
      && archive.Some? && (forall s | s in archive.value :: !s.breaks) && Inflated(archive.value) <= MAX_UNPACKED
  {
    hide JudgeAt, PassFinds, LastEnd, Inflated;
    if JudgeAt(bytes, end).Ok? && archive.Some? {
      InflatesExactly(archive.value, if verdict.Ok? then None else Some(verdict.error));
    }
  }

  /** A laid-out archive is taken for a DOCX or an XLSX exactly when its own entries say so. */
  lemma ZipAcceptedExactly(z: Layout, end: Option<nat>, kind: Kind)
    requires Whole(z) && |z.locals| < U32 - 1 && NoLaterEnd(Tail(z))
    requires LastEnd(Zip(z), end)
    ensures JudgeAt(Zip(z), end) == Ok(kind) <==>
      && |z.records| <= MAX_ENTRIES
      && (forall r | r in z.records :: r.flags % 2 == 0)
      && Total(EntriesOf(z.records)) <= MAX_UNPACKED
      && KindOf(EntriesOf(z.records), None) == Some(kind)
  {
    hide Zip, Tail, NoLaterEnd, LastEnd, Judge, KindOf, JudgeAt, Fitting;
    ZipReadsBack(z, end);
    ChainOfRecords(z.records);
    AcceptedExactly(ChainOf(z.records), kind);
    SameFlags(z.records);
  }

  /** Whether the bytes are the ASCII of a text. */
  predicate Spells(name: Bytes, text: string) {
    |name| == |text| && forall i | 0 <= i < |text| :: name[i] == text[i] as int
  }

  predicate SpellsKind(name: Bytes) {
    Spells(name, "word/document.xml") || Spells(name, "xl/workbook.xml")
  }

  /** Entry `i` is the last that is the main part of a Word or an Excel file. */
  predicate LastOfAKind(entries: seq<Entry>, i: nat) {
    i < |entries| && SpellsKind(entries[i].name) && forall j | i < j < |entries| :: !SpellsKind(entries[j].name)
  }

  lemma KindSpelled(name: Bytes, kind: Option<Kind>)
    ensures KindAfter(kind, name) ==
      if Spells(name, "word/document.xml") then Some(Docx)
      else if Spells(name, "xl/workbook.xml") then Some(Xlsx) else kind
  {
    SameBytes(name, WORD, "word/document.xml") by { WordSpelled(); }
    SameBytes(name, WORKBOOK, "xl/workbook.xml") by { WorkbookSpelled(); }
    hide Spells, WORD, WORKBOOK;
  }

  lemma WordSpelled()
    ensures Spells(WORD, "word/document.xml")
  {}

  lemma WorkbookSpelled()
    ensures Spells(WORKBOOK, "xl/workbook.xml")
  {}

  lemma SameBytes(name: Bytes, bytes: Bytes, text: string)
    requires Spells(bytes, text)
    ensures Spells(name, text) <==> name == bytes
  {}

  /**
   The kind of a list of entries is that of the last one named `word/document.xml` or
   `xl/workbook.xml`, and there is none exactly when none is named so.
   */
  lemma {:induction false} KindExactly(entries: seq<Entry>, kind: Option<Kind>)
    ensures (forall i | 0 <= i < |entries| :: !SpellsKind(entries[i].name)) ==> KindOf(entries, kind) == kind
    ensures forall i: nat | LastOfAKind(entries, i) ::
      KindOf(entries, kind) == Some(if Spells(entries[i].name, "word/document.xml") then Docx else Xlsx)
  {
    hide Spells, KindAfter;
    if entries != [] {
      var tail := entries[1..];
      KindSpelled(entries[0].name, kind);
      KindExactly(tail, KindAfter(kind, entries[0].name));
      assert forall j | 0 <= j < |tail| :: tail[j] == entries[j + 1];
      forall i: nat | LastOfAKind(entries, i)
        ensures KindOf(entries, kind) == Some(if Spells(entries[i].name, "word/document.xml") then Docx else Xlsx)
      {
        if i > 0 {
          assert LastOfAKind(tail, i - 1);
        } else {
          assert forall j | 0 <= j < |tail| :: !SpellsKind(tail[j].name);
        }
      }
    }
  }

  lemma {:induction false} SomeLast(entries: seq<Entry>, i: nat) returns (last: nat)
    requires i < |entries| && SpellsKind(entries[i].name)
    ensures LastOfAKind(entries, last)
    decreases |entries| - i
  {
    hide SpellsKind;
    if j :| i < j < |entries| && SpellsKind(entries[j].name) {
      last := SomeLast(entries, j);
    } else {
      last := i;
    }
  }

  /** Whether the last main part among the entries is one of the name. */
  ghost predicate LastSpells(entries: seq<Entry>, text: string) {
    exists i: nat :: LastOfAKind(entries, i) && Spells(entries[i].name, text)
  }

  lemma KindIsTheLast(entries: seq<Entry>)
    ensures KindOf(entries, None) == Some(Docx) <==> LastSpells(entries, "word/document.xml")
    ensures KindOf(entries, None) == Some(Xlsx) <==> LastSpells(entries, "xl/workbook.xml")
  {
    KindExactly(entries, None);
    hide KindOf, Spells;
    if i :| 0 <= i < |entries| && SpellsKind(entries[i].name) {
      var last := SomeLast(entries, i);
      NotBoth(entries[last].name);
      assert forall k: nat | LastOfAKind(entries, k) :: k == last;
    } else {
      assert forall k: nat :: !LastOfAKind(entries, k);
    }
  }

  lemma NotBoth(name: Bytes)
    ensures !(Spells(name, "word/document.xml") && Spells(name, "xl/workbook.xml"))
  {}

  /** The rules for what a directory declares: at most 5000 entries, none encrypted, 200 MiB in all. */
  predicate WithinTheRules(entries: seq<Entry>) {
    |entries| <= 5_000 && Total(entries) <= 209_715_200 && forall e | e in entries :: e.flags % 2 == 0
  }

  /**
   A laid-out archive is answered as a Word file exactly when its entries are within the rules, the
   last main part among them is `word/document.xml`, and what it really unpacks to fits; as an Excel
   file likewise with `xl/workbook.xml`.
   */
  lemma OfficeAnswersTheKind(
    z: Layout, archive: Option<seq<Stream>>, end: Option<nat>, verdict: Result<Kind, Why>)
    requires Whole(z) && |z.locals| < U32 - 1 && NoLaterEnd(Tail(z))
    requires LastEnd(Zip(z), end) && Answers(Zip(z), archive, end, verdict)
    ensures var fits := WithinTheRules(EntriesOf(z.records)) && archive.Some?
        && (forall s | s in archive.value :: !s.breaks) && Inflated(archive.value) <= 209_715_200;
      && (verdict == Ok(Docx) <==> fits && LastSpells(EntriesOf(z.records), "word/document.xml"))
      && (verdict == Ok(Xlsx) <==> fits && LastSpells(EntriesOf(z.records), "xl/workbook.xml"))
  {
    hide *;
    TakenExactly(Zip(z), archive, end, verdict, Docx);
    TakenExactly(Zip(z), archive, end, verdict, Xlsx);
    ZipAcceptedExactly(z, end, Docx);
    ZipAcceptedExactly(z, end, Xlsx);
    KindIsTheLast(EntriesOf(z.records));
    SameFlags(z.records);
    RulesAre(z.records);
    assert MAX_UNPACKED == 209_715_200 by { TheLimit(); }
  }

  lemma TheLimit()
    ensures MAX_UNPACKED == 209_715_200 && MAX_ENTRIES == 5_000
  {}

  lemma RulesAre(records: seq<Record>)
    ensures WithinTheRules(EntriesOf(records)) <==>
      && |records| <= MAX_ENTRIES && Total(EntriesOf(records)) <= MAX_UNPACKED
      && forall e | e in EntriesOf(records) :: e.flags % 2 == 0
  {
    TheLimit();
  }

  lemma SameFlags(records: seq<Record>)
    ensures (forall r | r in records :: r.flags % 2 == 0) <==> (forall e | e in EntriesOf(records) :: e.flags % 2 == 0)
  {
    var es := EntriesOf(records);
    if forall e | e in es :: e.flags % 2 == 0 {
      forall r | r in records
        ensures r.flags % 2 == 0
      {
        var i :| 0 <= i < |records| && records[i] == r;
        assert es[i] in es;
      }
    }
  }

  /** The end record of an archive without entries. */
  const NO_ENTRIES: Bytes := EndRecord([0, 0, 0, 0], 0, [0, 0, 0, 0], 0, 0)

  /** An archive whose comment is such a record is refused for it, whatever its entries are. */
  lemma CommentHidesTheEntries(z: Layout, end: Option<nat>)
    requires Whole(z) && z.comment == NO_ENTRIES && LastEnd(Zip(z), end)
    ensures !NoLaterEnd(Tail(z)) && JudgeAt(Zip(z), end) == Err(Neither)
  {
    hide *;
    var bytes := Zip(z);
    assert |NO_ENTRIES| == 22 && SignatureAt(NO_ENTRIES, 0, LOCAL_END) && U16At(NO_ENTRIES, 10) == Some(0)
      && U32At(NO_ENTRIES, 16) == Some(0) by { NoEntriesFields(); }
    EndsInRecord(z);
    LastIsLast(bytes, end);
    ZipReadsBack(z, end);
    JudgedFrom(bytes, |bytes| - 22, 0, 0, Done) by { assert Headers(bytes, 0, 0) == Done by { NoHeadersAt(bytes); } }
    assert Judge(Done, 0, None) == Err(Neither) by { JudgeNothing(); }
    assert MAX_ENTRIES == 5_000 && U32 == 4_294_967_296 by { Limits(); }
  }

  lemma Limits()
    ensures MAX_ENTRIES == 5_000 && U32 == 4_294_967_296
  {}

  lemma NoHeadersAt(bytes: Bytes)
    ensures Headers(bytes, 0, 0) == Done
  {}

  lemma JudgeNothing()
    ensures Judge(Done, 0, None) == Err(Neither)
  {}

  lemma NoEntriesFields()
    ensures |NO_ENTRIES| == 22 && SignatureAt(NO_ENTRIES, 0, LOCAL_END)
    ensures U16At(NO_ENTRIES, 10) == Some(0) && U32At(NO_ENTRIES, 16) == Some(0)
  {
    EndFields([0, 0, 0, 0], 0, [0, 0, 0, 0], 0, 0);
    hide EndRecord, U16At, U32At, SignatureAt;
  }

  lemma EndsInRecord(z: Layout)
    requires Whole(z) && z.comment == NO_ENTRIES
    ensures var bytes := Zip(z);
      && |bytes| >= 44 && OwnEnd(z) == |bytes| - 44 && SignatureAt(bytes, |bytes| - 22, LOCAL_END)
      && U16At(bytes, |bytes| - 12) == Some(0) && U32At(bytes, |bytes| - 6) == Some(0)
  {
    NoEntriesFields();
    EndFields(z.disks, |z.records|, z.size, |z.locals|, |z.comment|);
    hide EndRecord, LaidAll, Fitting, U16At, U32At, SignatureAt, NO_ENTRIES;
    var bytes := Zip(z);
    var at := |bytes| - 22;
    assert bytes[at..at + 22] == NO_ENTRIES;
    SignatureMoves(NO_ENTRIES, bytes, at, LOCAL_END);
    U16Moves(NO_ENTRIES, bytes, at, 10);
    U32Moves(NO_ENTRIES, bytes, at, 16);
  }

  lemma LastIsLast(bytes: Bytes, end: Option<nat>)
    requires |bytes| >= 22 && SignatureAt(bytes, |bytes| - 22, LOCAL_END) && LastEnd(bytes, end)
    ensures end == Some(|bytes| - 22)
  {
    hide SignatureAt;
    assert EndAt(bytes, |bytes| - 22);
  }
}
