/**
 The rewriting of a User Guide page: every Portal path of an example project
 (`/projects/{slug}` standing on its own) is put on the Portal and the project that serve the page.
 */
module Guide {
  import opened Wrappers

  const PREFIX := "/projects/"

  /** Unicode's White_Space characters. */
  predicate IsWhitespace(c: char) {
    || '\U{0009}' <= c <= '\U{000D}' || c == ' ' || c == '\U{0085}' || c == '\U{00A0}' || c == '\U{1680}'
    || '\U{2000}' <= c <= '\U{200A}' || c == '\U{2028}' || c == '\U{2029}' || c == '\U{202F}'
    || c == '\U{205F}' || c == '\U{3000}'
  }

  predicate IsSlugChar(c: char) {
    'a' <= c <= 'z' || '0' <= c <= '9' || c == '-' || c == '{' || c == '}'
  }

  /** Whether a path may stand right after `c`. */
  predicate Opens(c: char) {
    IsWhitespace(c) || c in "`(\"'["
  }

  /** Whether a slug may end right before `c`. */
  predicate Closes(c: char) {
    IsWhitespace(c) || c in "/?#`)\"'.,"
  }

  predicate OccursAt(text: string, at: nat) {
    at <= |text| && PREFIX <= text[at..]
  }

  /** The first place `PREFIX` occurs at. */
  function Find(text: string): (found: Option<nat>)
    ensures found.Some? ==> found.value + |PREFIX| <= |text|
  {
    if |text| < |PREFIX| then None
    else if OccursAt(text, 0) then Some(0)
    else match Find(text[1..]) case None => None case Some(i) => Some(i + 1)
  }

  lemma {:induction false} FindFinds(text: string)
    ensures match Find(text)
      case Some(at) => OccursAt(text, at) && NoneBefore(text, at)
      case None => forall i: nat :: !OccursAt(text, i)
  {
    if |text| >= |PREFIX| && !OccursAt(text, 0) {
      FindFinds(text[1..]);
      forall i: nat | i > 0
        ensures OccursAt(text, i) == OccursAt(text[1..], i - 1)
      {
        Shift(text, i - 1);
      }
    }
  }

  predicate NoneBefore(text: string, end: nat) {
    forall i: nat | i < end :: !OccursAt(text, i)
  }

  lemma Shift(text: string, i: nat)
    requires text != []
    ensures OccursAt(text, i + 1) <==> OccursAt(text[1..], i)
  {
    if i + 1 <= |text| {
      assert text[1..][i..] == text[i + 1..];
    }
  }

  function SlugLength(text: string): (n: nat)
    ensures n <= |text| && (forall i | 0 <= i < n :: IsSlugChar(text[i])) && (n < |text| ==> !IsSlugChar(text[n]))
  {
    if text == "" || !IsSlugChar(text[0]) then 0 else 1 + SlugLength(text[1..])
  }

  /** Whether a path that follows `before` stands on its own. */
  predicate Standalone(before: string) {
    before == "" || Opens(before[|before| - 1])
  }

  /** Whether `after` goes on as a slug that ends where a path may end. */
  predicate Slugged(after: string) {
    var n := SlugLength(after);
    n > 0 && (n == |after| || Closes(after[n]))
  }

  function RewriteOf(text: string, portal: string, project: string): string
    decreases |text|
  {
    match Find(text)
    case None => text
    case Some(at) =>
      var after := text[at + |PREFIX|..];
      if Standalone(text[..at]) && Slugged(after) then
        text[..at] + portal + PREFIX + project + RewriteOf(after[SlugLength(after)..], portal, project)
      else text[..at] + PREFIX + RewriteOf(after, portal, project)
  }

  lemma Join3(a: string, b: string, c: string, d: string)
    ensures a + (b + c + d) == a + b + c + d
  {}

  lemma Join4(a: string, b: string, c: string, d: string, e: string)
    ensures a + (b + c + d + e) == a + b + c + d + e
  {}

  lemma Join5(a: string, b: string, c: string, d: string, e: string, f: string)
    ensures a + (b + c + d + e + f) == a + b + c + d + e + f
  {}

  // One step of the rewriting, behind what was rewritten before.

  lemma PathStep(out: string, rest: string, at: nat, portal: string, project: string)
    requires Find(rest) == Some(at) && Standalone(rest[..at]) && Slugged(rest[at + |PREFIX|..])
    ensures var after := rest[at + |PREFIX|..];
      out + RewriteOf(rest, portal, project)
      == out + rest[..at] + portal + PREFIX + project + RewriteOf(after[SlugLength(after)..], portal, project)
  {
    var after := rest[at + |PREFIX|..];
    Join5(out, rest[..at], portal, PREFIX, project, RewriteOf(after[SlugLength(after)..], portal, project));
    hide Find, SlugLength, Standalone, Slugged;
  }

  lemma PrefixStep(out: string, rest: string, at: nat, portal: string, project: string)
    requires Find(rest) == Some(at) && !(Standalone(rest[..at]) && Slugged(rest[at + |PREFIX|..]))
    ensures out + RewriteOf(rest, portal, project)
      == out + rest[..at] + PREFIX + RewriteOf(rest[at + |PREFIX|..], portal, project)
  {
    Join3(out, rest[..at], PREFIX, RewriteOf(rest[at + |PREFIX|..], portal, project));
    hide Find, SlugLength, Standalone, Slugged;
  }

  lemma LastStep(rest: string, portal: string, project: string)
    requires Find(rest) == None
    ensures RewriteOf(rest, portal, project) == rest
  {}

  method Rewrite(text: string, portal: string, project: string) returns (out: string)
    ensures out == RewriteOf(text, portal, project)
  {
    hide Find, SlugLength, RewriteOf, Opens, Closes;
    out := "";
    var rest := text;
    var found := Find(rest);
    while found.Some?
      invariant found == Find(rest)
      invariant RewriteOf(text, portal, project) == out + RewriteOf(rest, portal, project)
      decreases |rest|
    {
      var at := found.value;
      var after := rest[at + |PREFIX|..];
      var slug := SlugLength(after);
      var standalone := at == 0 || Opens(rest[at - 1]);
      var ends := slug == |after| || Closes(after[slug]);
      if standalone && slug > 0 && ends {
        PathStep(out, rest, at, portal, project);
        out := out + rest[..at] + portal + PREFIX + project;
        rest := after[slug..];
      } else {
        PrefixStep(out, rest, at, portal, project);
        out := out + rest[..at] + PREFIX;
        rest := after;
      }
      found := Find(rest);
    }
    LastStep(rest, portal, project);
    out := out + rest;
  }

  // ----- reading a text piece by piece

  // Whether the prefix occurs at a place is decided by the ten characters from it.

  lemma OccurrenceIsSlice(text: string, at: nat)
    ensures OccursAt(text, at) <==> at + 10 <= |text| && text[at..at + 10] == PREFIX
  {
    assert |PREFIX| == 10;
    if at + 10 <= |text| {
      assert text[at..][..10] == text[at..at + 10];
    }
  }

  lemma OccurrenceMoves(a: string, i: nat, b: string, j: nat)
    requires i + 10 <= |a| && j + 10 <= |b| && a[i..i + 10] == b[j..j + 10]
    ensures OccursAt(a, i) <==> OccursAt(b, j)
  {
    OccurrenceIsSlice(a, i);
    OccurrenceIsSlice(b, j);
  }

  // One step of the rewriting, on a text given as what stands before its first prefix and what stands after.
  lemma Unfold(before: string, after: string, portal: string, project: string)
    requires NoneBefore(before + PREFIX + after, |before|)
    ensures Find(before + PREFIX + after) == Some(|before|)
    ensures RewriteOf(before + PREFIX + after, portal, project)
      == if Standalone(before) && Slugged(after)
         then before + portal + PREFIX + project + RewriteOf(after[SlugLength(after)..], portal, project)
         else before + PREFIX + RewriteOf(after, portal, project)
  {
    var text := before + PREFIX + after;
    assert text[|before|..] == PREFIX + after;
    assert OccursAt(text, |before|);
    FindFinds(text);
    assert text[..|before|] == before;
    assert text[|before| + |PREFIX|..] == after;
    hide SlugLength, Standalone, Slugged;
  }

  // ----- a second pass changes nothing

  /** An address a Portal is served at, into which the prefix does not run. */
  predicate PortalAddress(portal: string) {
    ("http://" <= portal || "https://" <= portal) && Find(portal + PREFIX) == Some(|portal|)
  }

  predicate ProjectName(project: string) {
    project != "" && SlugLength(project) == |project|
  }

  // Where no prefix starts in a text: in front of its first slash, in a part that is the same in a
  // text without one there, and where a character the prefix does not have would be in it.

  lemma NoSlashNoPrefix(text: string, i: nat)
    requires i < |text| && text[i] != '/'
    ensures !OccursAt(text, i)
  {
    OccurrenceIsSlice(text, i);
  }

  lemma NoPrefixAround(text: string, i: nat, k: nat)
    requires i + k < |text| && k < 10 && text[i + k] == 'h'
    ensures !OccursAt(text, i)
  {
    OccurrenceIsSlice(text, i);
    assert PREFIX[k] != 'h';
    assert i + 10 <= |text| ==> text[i..i + 10][k] == 'h';
  }

  lemma NoneBeforePrefix(word: string, before: string, rest: string, text: string)
    requires '/' !in word
    requires NoneBefore(text, |before|) && before + PREFIX <= text
    ensures NoneBefore(word + before + PREFIX + rest, |word + before|)
  {
    var whole := word + before + PREFIX + rest;
    forall i: nat | i < |word + before|
      ensures !OccursAt(whole, i)
    {
      if i < |word| {
        NoSlashNoPrefix(whole, i);
      } else {
        var j := i - |word|;
        assert whole[i..i + 10] == (before + PREFIX)[j..j + 10] == text[j..j + 10];
        OccurrenceMoves(whole, i, text, j);
      }
    }
  }

  // The text before the first prefix, put behind a word and in front of a rewritten path, holds no prefix.
  lemma NoneBeforePath(word: string, before: string, portal: string, rest: string, text: string)
    requires PortalAddress(portal) && '/' !in word
    requires NoneBefore(text, |before|) && before <= text
    ensures NoneBefore(word + before + portal + PREFIX + rest, |word + before + portal|)
  {
    var whole := word + before + (portal + PREFIX + rest);
    Join3(word + before, portal, PREFIX, rest);
    Address(portal);
    forall i: nat | i < |word + before + portal|
      ensures !OccursAt(whole, i)
    {
      hide PortalAddress;
      if i < |word| {
        NoSlashNoPrefix(whole, i);
      } else if i < |word + before| {
        var j := i - |word|;
        if j + 10 <= |before| {
          assert whole[i..i + 10] == before[j..j + 10] == text[j..j + 10];
          OccurrenceMoves(whole, i, text, j);
        } else {
          assert whole[i + (|before| - j)] == portal[0];
          NoPrefixAround(whole, i, |before| - j);
        }
      } else {
        var m := i - |word + before|;
        var address := portal + PREFIX;
        assert whole[i..i + 10] == (portal + PREFIX + rest)[m..m + 10] == address[m..m + 10];
        OccurrenceMoves(whole, i, address, m);
      }
    }
  }

  lemma Address(portal: string)
    requires PortalAddress(portal)
    ensures portal != "" && portal[0] == 'h' && NoneBefore(portal + PREFIX, |portal|)
  {
    FindFinds(portal + PREFIX);
  }

  // What a rewritten text starts with, where the text before it did not end a path.
  lemma NotSluggedAgain(after: string, portal: string, project: string)
    requires PortalAddress(portal) && !Slugged(after)
    ensures !Slugged(RewriteOf(after, portal, project))
  {
    hide *;
    var found := Find(after);
    if found.Some? {
      var at := found.value;
      FirstSlash(after, at);
      if at == 0 {
        RewrittenStart(after, portal, project);
      } else {
        KeptInFront(after, at, portal, project);
        SameInFront(after, RewriteOf(after, portal, project), at);
      }
    } else {
      LastStep(after, portal, project);
    }
  }

  lemma SameInFront(after: string, again: string, at: nat)
    requires 0 < at < |after| && after[at] == '/' && SlugLength(after) <= at && after[..at] <= again
    requires !Slugged(after)
    ensures !Slugged(again)
  {
    var n := SlugLength(after);
    assert Closes('/');
    assert n < at;
    SlugLengthSame(after, again, n) by {
      assert after[..n + 1] == after[..at][..n + 1] == again[..n + 1];
    }
    hide SlugLength, Closes;
  }

  lemma FirstSlash(text: string, at: nat)
    requires Find(text) == Some(at)
    ensures at < |text| && text[at] == '/' && SlugLength(text) <= at
  {
    FindFinds(text);
    hide Find;
    OccurrenceIsSlice(text, at);
    assert text[at] == text[at..at + 10][0];
  }

  lemma KeptInFront(text: string, at: nat, portal: string, project: string)
    requires Find(text) == Some(at)
    ensures text[..at] <= RewriteOf(text, portal, project)
  {
    hide Find, SlugLength, Slugged, Standalone;
  }

  // A text that starts with the prefix, rewritten, starts with the prefix or with a Portal's address.
  lemma RewrittenStart(text: string, portal: string, project: string)
    requires PortalAddress(portal) && Find(text) == Some(0)
    ensures !Slugged(RewriteOf(text, portal, project))
  {
    Scheme(portal);
    hide PortalAddress, OccursAt;
    var again := RewriteOf(text, portal, project);
    var n := SlugLength(portal);
    if Standalone(text[..0]) && Slugged(text[|PREFIX|..]) {
      assert again[..n + 1] == portal[..n + 1];
      SlugLengthSame(portal, again, n);
    } else {
      assert again[0] == PREFIX[0];
    }
  }

  // A Portal's address starts with a word and a colon, which ends no path.
  lemma Scheme(portal: string)
    requires PortalAddress(portal)
    ensures SlugLength(portal) < |portal| && portal[SlugLength(portal)] == ':'
  {
    SchemeChars(portal);
    ColonEndsSlug(portal, if portal[4] == ':' then 4 else 5);
  }

  lemma ColonEndsSlug(text: string, n: nat)
    requires n < |text| && text[n] == ':' && n in {4, 5} && (n == 5 ==> IsSlugChar(text[4]))
    requires forall i | 0 <= i < 4 :: IsSlugChar(text[i])
    ensures SlugLength(text) == n
  {
    hide IsSlugChar;
    SlugLengthIs(text, n) by {
      assert !IsSlugChar(':') by { Colon(); }
    }
  }

  lemma Colon()
    ensures !IsSlugChar(':')
  {}

  lemma SchemeChars(portal: string)
    requires PortalAddress(portal)
    ensures |portal| > 5 && (portal[4] == ':' || (IsSlugChar(portal[4]) && portal[5] == ':'))
    ensures forall i | 0 <= i < 4 :: IsSlugChar(portal[i])
  {
    hide Find, OccursAt;
    var http, https := "http://", "https://";
    assert |http| == 7 && |https| == 8;
    assert http <= portal || https <= portal;
    assert forall i | 0 <= i < 4 :: portal[i] == http[i];
    if http <= portal {
      assert portal[4] == http[4];
    } else {
      assert portal[4] == https[4] && portal[5] == https[5];
    }
  }

  lemma SlugLengthIs(text: string, n: nat)
    requires n < |text| && (forall i | 0 <= i < n :: IsSlugChar(text[i])) && !IsSlugChar(text[n])
    ensures SlugLength(text) == n
  {}

  lemma SlugLengthSame(a: string, b: string, n: nat)
    requires n == SlugLength(a) && n < |a| && n < |b| && a[..n + 1] == b[..n + 1]
    ensures SlugLength(b) == n && a[n] == b[n]
  {
    assert forall i | 0 <= i <= n :: a[i] == a[..n + 1][i] && b[i] == b[..n + 1][i];
    SlugLengthIs(b, n);
  }

  // A rewritten text stays as it is, also behind a word that no path may follow.
  lemma {:induction false} Settles(word: string, text: string, portal: string, project: string)
    requires PortalAddress(portal) && !Opens(portal[|portal| - 1]) && ProjectName(project)
    requires word == "" || word == project
    ensures RewriteOf(word + RewriteOf(text, portal, project), portal, project)
      == word + RewriteOf(text, portal, project)
    decreases |text|
  {
    assert '/' !in word && (word == "" || !Opens(word[|word| - 1])) by { NameChars(project); }
    hide *;
    match Find(text)
    case None =>
      NothingFound(word, text);
      LastStep(text, portal, project);
      LastStep(word + text, portal, project);
    case Some(at) =>
      var after := text[at + |PREFIX|..];
      if Standalone(text[..at]) && Slugged(after) {
        Settles(project, after[SlugLength(after)..], portal, project);
        SettlesPath(word, text, at, portal, project);
      } else {
        Settles("", after, portal, project);
        assert "" + RewriteOf(after, portal, project) == RewriteOf(after, portal, project);
        SettlesPrefix(word, text, at, portal, project);
      }
  }

  lemma NameChars(project: string)
    requires ProjectName(project)
    ensures '/' !in project && !Opens(project[|project| - 1])
  {
    hide SlugLength;
  }

  lemma SettlesPath(word: string, text: string, at: nat, portal: string, project: string)
    requires PortalAddress(portal) && !Opens(portal[|portal| - 1]) && '/' !in word
    requires Find(text) == Some(at) && Standalone(text[..at]) && Slugged(text[at + |PREFIX|..])
    requires var after := text[at + |PREFIX|..];
      var rest := project + RewriteOf(after[SlugLength(after)..], portal, project);
      RewriteOf(rest, portal, project) == rest
    ensures RewriteOf(word + RewriteOf(text, portal, project), portal, project)
      == word + RewriteOf(text, portal, project)
  {
    var before, after := text[..at], text[at + |PREFIX|..];
    var rest := project + RewriteOf(after[SlugLength(after)..], portal, project);
    Address(portal);
    RewritesTo(text, at, portal, project, rest);
    NoneBeforePath(word, before, portal, rest, text);
    hide *;
    var whole := word + before + portal;
    assert whole[|whole| - 1] == portal[|portal| - 1];
    assert !Standalone(whole) by { LastChar(whole); }
    Unfold(whole, rest, portal, project);
    Join4(word, before, portal, PREFIX, rest);
  }

  lemma LastChar(text: string)
    requires text != [] && !Opens(text[|text| - 1])
    ensures !Standalone(text)
  {}

  lemma RewritesTo(text: string, at: nat, portal: string, project: string, rest: string)
    requires Find(text) == Some(at) && Standalone(text[..at]) && Slugged(text[at + |PREFIX|..])
    requires var after := text[at + |PREFIX|..];
      rest == project + RewriteOf(after[SlugLength(after)..], portal, project)
    ensures RewriteOf(text, portal, project) == text[..at] + portal + PREFIX + rest
    ensures NoneBefore(text, at)
  {
    FindFinds(text);
    hide Find, Slugged, SlugLength, OccursAt, Opens;
  }

  lemma SettlesPrefix(word: string, text: string, at: nat, portal: string, project: string)
    requires PortalAddress(portal) && '/' !in word && (word == "" || !Opens(word[|word| - 1]))
    requires Find(text) == Some(at) && !(Standalone(text[..at]) && Slugged(text[at + |PREFIX|..]))
    requires var rest := RewriteOf(text[at + |PREFIX|..], portal, project);
      RewriteOf(rest, portal, project) == rest
    ensures RewriteOf(word + RewriteOf(text, portal, project), portal, project)
      == word + RewriteOf(text, portal, project)
  {
    hide *;
    var before, after := text[..at], text[at + |PREFIX|..];
    var rest := RewriteOf(after, portal, project);
    KeepsPrefix(text, at, portal, project);
    NoneBeforePrefix(word, before, rest, text);
    if Standalone(word + before) {
      BehindWord(word, before);
      NotSluggedAgain(after, portal, project);
    }
    Unfold(word + before, rest, portal, project);
    Join3(word, before, PREFIX, rest);
  }

  lemma BehindWord(word: string, before: string)
    requires Standalone(word + before) && (word == "" || !Opens(word[|word| - 1]))
    ensures Standalone(before)
  {
    hide Opens;
    if before != "" {
      assert (word + before)[|word + before| - 1] == before[|before| - 1];
    } else {
      assert word + before == word;
    }
  }

  lemma KeepsPrefix(text: string, at: nat, portal: string, project: string)
    requires Find(text) == Some(at) && !(Standalone(text[..at]) && Slugged(text[at + |PREFIX|..]))
    ensures RewriteOf(text, portal, project) == text[..at] + PREFIX + RewriteOf(text[at + |PREFIX|..], portal, project)
    ensures NoneBefore(text, at) && text[..at] + PREFIX <= text
  {
    FindFinds(text);
    assert text[..at] + PREFIX <= text;
    hide Find, Slugged, SlugLength, OccursAt, Standalone;
  }

  lemma NothingFound(word: string, text: string)
    requires '/' !in word && Find(text) == None
    ensures Find(word + text) == None
  {
    FindFinds(text);
    FindFinds(word + text);
    forall i: nat
      ensures !OccursAt(word + text, i)
    {
      if i < |word| {
        NoSlashNoPrefix(word + text, i);
      } else if i <= |word + text| {
        assert (word + text)[i..] == text[i - |word|..];
        assert !OccursAt(text, i - |word|);
      }
    }
  }

  /** A second pass changes nothing, on every text. */
  ghost predicate Idempotent(portal: string, project: string) {
    forall text :: RewriteOf(RewriteOf(text, portal, project), portal, project) == RewriteOf(text, portal, project)
  }

  /** Rewriting twice is rewriting once exactly when no path may stand right behind the Portal's address. */
  lemma IdempotentExactly(portal: string, project: string)
    requires PortalAddress(portal) && ProjectName(project)
    ensures Idempotent(portal, project) <==> !Opens(portal[|portal| - 1])
  {
    if !Opens(portal[|portal| - 1]) {
      forall text
        ensures RewriteOf(RewriteOf(text, portal, project), portal, project) == RewriteOf(text, portal, project)
      {
        Settles("", text, portal, project);
        assert "" + RewriteOf(text, portal, project) == RewriteOf(text, portal, project);
      }
    } else {
      GrowsAgain(portal, project);
      hide RewriteOf;
      var text := PREFIX + project;
      assert RewriteOf(RewriteOf(text, portal, project), portal, project) != RewriteOf(text, portal, project);
    }
  }

  lemma GrowsAgain(portal: string, project: string)
    requires PortalAddress(portal) && ProjectName(project) && Opens(portal[|portal| - 1])
    ensures var once := RewriteOf(PREFIX + project, portal, project);
      |RewriteOf(once, portal, project)| > |once|
  {
    RewritesPath(portal, project);
    Address(portal);
    AddressThenProject(portal, project);
    assert Standalone(portal);
    hide PortalAddress, OccursAt, Find, Opens;
    Unfold(portal, project, portal, project);
    SlugOfProject(project);
  }

  lemma SlugOfProject(project: string)
    requires ProjectName(project)
    ensures Slugged(project) && project[SlugLength(project)..] == ""
  {}

  lemma RewritesPath(portal: string, project: string)
    requires ProjectName(project)
    ensures RewriteOf(PREFIX + project, portal, project) == portal + PREFIX + project
  {
    hide *;
    PrefixInFront(project);
    SlugOfProject(project);
    EmptyStays(portal, project);
    Unfold("", project, portal, project);
    assert "" + PREFIX + project == PREFIX + project;
    assert Standalone("") by { NothingBefore(); }
  }

  lemma NothingBefore()
    ensures Standalone("")
  {}

  lemma PrefixInFront(project: string)
    ensures NoneBefore("" + PREFIX + project, 0)
  {}

  lemma EmptyStays(portal: string, project: string)
    ensures RewriteOf("", portal, project) == ""
  {}

  lemma AddressThenProject(portal: string, project: string)
    requires NoneBefore(portal + PREFIX, |portal|)
    ensures NoneBefore(portal + PREFIX + project, |portal|)
  {
    var once := portal + PREFIX + project;
    forall i: nat | i < |portal|
      ensures !OccursAt(once, i)
    {
      var address := portal + PREFIX;
      assert once[i..i + 10] == address[i..i + 10];
      OccurrenceMoves(once, i, address, i);
    }
  }

  // ----- what is rewritten, and that nothing else is

  /** Whether the prefix at `at` starts a path that is rewritten, when the text is read from `from`. */
  predicate Hit(text: string, from: nat, at: nat)
    requires from <= at && at + |PREFIX| <= |text|
  {
    Standalone(text[from..at]) && Slugged(text[at + |PREFIX|..])
  }

  /** Where a path that is rewritten at `at` ends. */
  function PathEnd(text: string, at: nat): (end: nat)
    requires at + |PREFIX| <= |text|
    ensures at + |PREFIX| <= end <= |text|
  {
    at + |PREFIX| + SlugLength(text[at + |PREFIX|..])
  }

  /** Where reading goes on after the prefix at `at`. */
  function Next(text: string, from: nat, at: nat): (next: nat)
    requires from <= at && at + |PREFIX| <= |text|
    ensures at + 10 <= next <= |text|
  {
    if Hit(text, from, at) then PathEnd(text, at) else at + |PREFIX|
  }

  /** The places of `text` from `from` on whose path is rewritten. */
  function Paths(text: string, from: nat): set<nat>
    requires from <= |text|
    decreases |text| - from
  {
    match Find(text[from..])
    case None => {}
    case Some(i) =>
      var at := from + i;
      (if Hit(text, from, at) then {at} else {}) + Paths(text, Next(text, from, at))
  }

  /**
   `text` from `from` on, every character copied but the paths at `paths`, each put on `portal`
   and `project`.
   */
  function Edited(text: string, paths: set<nat>, from: nat, portal: string, project: string): string
    decreases |text| - from
  {
    if from >= |text| then ""
    else if from in paths && from + |PREFIX| <= |text| then
      portal + PREFIX + project + Edited(text, paths, PathEnd(text, from), portal, project)
    else [text[from]] + Edited(text, paths, from + 1, portal, project)
  }

  lemma {:induction false} Copied(text: string, paths: set<nat>, from: nat, end: nat, portal: string, project: string)
    requires from <= end <= |text| && forall p | p in paths :: !(from <= p < end)
    ensures Edited(text, paths, from, portal, project) == text[from..end] + Edited(text, paths, end, portal, project)
    decreases end - from
  {
    hide PathEnd;
    if from < end {
      EditedCopies(text, paths, from, portal, project);
      hide Edited;
      Copied(text, paths, from + 1, end, portal, project);
      assert text[from..end] == [text[from]] + text[from + 1..end];
    } else {
      assert text[from..end] == "";
    }
  }

  lemma EditedCopies(text: string, paths: set<nat>, from: nat, portal: string, project: string)
    requires from < |text| && from !in paths
    ensures Edited(text, paths, from, portal, project) == [text[from]] + Edited(text, paths, from + 1, portal, project)
  {
    hide PathEnd;
  }

  lemma EditedPath(text: string, paths: set<nat>, at: nat, portal: string, project: string)
    requires at + |PREFIX| <= |text| && at in paths
    ensures Edited(text, paths, at, portal, project)
      == portal + PREFIX + project + Edited(text, paths, PathEnd(text, at), portal, project)
  {
    hide PathEnd;
  }

  lemma {:induction false} PathsFollow(text: string, from: nat)
    requires from <= |text|
    ensures forall p | p in Paths(text, from) :: p >= from
    decreases |text| - from
  {
    hide Hit, Next;
    match Find(text[from..])
    case None =>
    case Some(i) =>
      PathsFollow(text, Next(text, from, from + i));
  }

  // One step of the rewriting, on the part of a text that starts at `from`.
  lemma RewriteStep(text: string, from: nat, at: nat, portal: string, project: string)
    requires from <= at && at + |PREFIX| <= |text| && Find(text[from..]) == Some(at - from)
    ensures RewriteOf(text[from..], portal, project)
      == if Hit(text, from, at)
         then text[from..at] + portal + PREFIX + project + RewriteOf(text[Next(text, from, at)..], portal, project)
         else text[from..Next(text, from, at)] + RewriteOf(text[Next(text, from, at)..], portal, project)
  {
    var rest := text[from..];
    FoundPrefix(text, from, at);
    Slices(text, from, at);
    hide Find, SlugLength, Slugged, Standalone, RewriteOf;
    if Hit(text, from, at) {
      PathStep("", rest, at - from, portal, project);
    } else {
      PrefixStep("", rest, at - from, portal, project);
    }
    assert "" + RewriteOf(rest, portal, project) == RewriteOf(rest, portal, project);
    assert "" + rest[..at - from] == rest[..at - from];
  }

  lemma FoundPrefix(text: string, from: nat, at: nat)
    requires from <= at <= |text| && Find(text[from..]) == Some(at - from)
    ensures PREFIX <= text[at..]
  {
    FindFinds(text[from..]);
    assert text[from..][at - from..] == text[at..];
  }

  lemma Slices(text: string, from: nat, at: nat)
    requires from <= at && at + |PREFIX| <= |text| && PREFIX <= text[at..]
    ensures text[from..at + |PREFIX|] == text[from..at] + PREFIX
    ensures text[from..][..at - from] == text[from..at] && text[from..][at - from + |PREFIX|..] == text[at + |PREFIX|..]
    ensures text[at + |PREFIX|..][SlugLength(text[at + |PREFIX|..])..] == text[PathEnd(text, at)..]
  {
    hide SlugLength;
    assert text[at..][..|PREFIX|] == PREFIX;
  }

  /** Whether `paths` are the places from `from` on whose path is rewritten, whatever stands before. */
  ghost predicate Agree(text: string, paths: set<nat>, from: nat)
    requires from <= |text|
  {
    forall p | p >= from :: p in paths <==> p in Paths(text, from)
  }

  lemma AgreeLater(text: string, paths: set<nat>, from: nat, at: nat)
    requires from <= at && at + |PREFIX| <= |text| && Find(text[from..]) == Some(at - from) && Agree(text, paths, from)
    ensures Agree(text, paths, Next(text, from, at))
    ensures at in paths <==> Hit(text, from, at)
    ensures forall p | p in paths && from <= p < Next(text, from, at) :: p == at
  {
    PathsFollow(text, Next(text, from, at));
    hide Hit, Next, Find;
    PathsStep(text, from, at);
  }

  /** The rewriting is that edit: every character outside a rewritten path stays, in its place. */
  lemma {:induction false} RewritingEdits(text: string, paths: set<nat>, from: nat, portal: string, project: string)
    requires from <= |text| && Agree(text, paths, from)
    ensures RewriteOf(text[from..], portal, project) == Edited(text, paths, from, portal, project)
    decreases |text| - from
  {
    hide *;
    match Find(text[from..])
    case None =>
      NoPathEdits(text, paths, from, portal, project);
    case Some(i) =>
      AgreeLater(text, paths, from, from + i);
      var next := Next(text, from, from + i);
      RewritingEdits(text, paths, next, portal, project);
      EditsStep(text, paths, from, from + i, portal, project);
  }

  lemma NoPathEdits(text: string, paths: set<nat>, from: nat, portal: string, project: string)
    requires from <= |text| && Agree(text, paths, from) && Find(text[from..]) == None
    ensures RewriteOf(text[from..], portal, project) == Edited(text, paths, from, portal, project)
  {
    LastStep(text[from..], portal, project);
    Copied(text, paths, from, |text|, portal, project);
    hide RewriteOf, Find;
    assert text[from..|text|] == text[from..];
  }

  lemma EditsStep(text: string, paths: set<nat>, from: nat, at: nat, portal: string, project: string)
    requires from <= at && at + |PREFIX| <= |text| && Find(text[from..]) == Some(at - from)
    requires at in paths <==> Hit(text, from, at)
    requires forall p | p in paths && from <= p < Next(text, from, at) :: p == at
    requires var next := Next(text, from, at);
      RewriteOf(text[next..], portal, project) == Edited(text, paths, next, portal, project)
    ensures RewriteOf(text[from..], portal, project) == Edited(text, paths, from, portal, project)
  {
    hide Hit, PathEnd, Find, Edited, RewriteOf;
    RewriteStep(text, from, at, portal, project);
    var next := Next(text, from, at);
    if Hit(text, from, at) {
      Copied(text, paths, from, at, portal, project);
      EditedPath(text, paths, at, portal, project);
      Join4(text[from..at], portal, PREFIX, project, Edited(text, paths, next, portal, project));
    } else {
      Copied(text, paths, from, next, portal, project);
    }
  }

  lemma RewriteIsAnEdit(text: string, portal: string, project: string)
    ensures RewriteOf(text, portal, project) == Edited(text, Paths(text, 0), 0, portal, project)
  {
    assert text[0..] == text;
    hide Paths;
    RewritingEdits(text, Paths(text, 0), 0, portal, project);
  }

  /** A path that stands on its own in the whole text. */
  predicate Stands(text: string, at: nat)
  {
    OccursAt(text, at) && at + |PREFIX| <= |text| && (at == 0 || Opens(text[at - 1])) && Slugged(text[at + |PREFIX|..])
  }

  /** Whether reading goes on at `at` right behind an earlier prefix, and its slug if it has one. */
  predicate Follows(text: string, at: nat)
    requires at <= |text|
  {
    exists before: nat | before + |PREFIX| <= at ::
      OccursAt(text, before) && forall i | before + |PREFIX| <= i < at :: IsSlugChar(text[i])
  }

  /** Every path that stands on its own is rewritten. */
  lemma {:induction false} StandingPathIsRewritten(text: string, from: nat, at: nat)
    requires from <= at <= |text| && Stands(text, at)
    ensures at in Paths(text, from)
    decreases |text| - from
  {
    hide *;
    FirstIsNoLater(text, from, at);
    var first := from + Find(text[from..]).value;
    PathsStep(text, from, first);
    if first == at {
      StandsIsHit(text, from, at);
    } else {
      Apart(text, first, at);
      PastPath(text, first, at);
      NextIsNoLater(text, from, first);
      StandingPathIsRewritten(text, Next(text, from, first), at);
    }
  }

  lemma FirstIsNoLater(text: string, from: nat, at: nat)
    requires from <= at <= |text| && Stands(text, at)
    ensures var found := Find(text[from..]);
      found.Some? && from + found.value <= at && OccursAt(text, from + found.value)
  {
    hide Slugged, Opens, Find;
    var rest := text[from..];
    FindFinds(rest);
    assert rest[at - from..] == text[at..];
    assert OccursAt(rest, at - from);
    assert rest[Find(rest).value..] == text[from + Find(rest).value..];
  }

  lemma PathsStep(text: string, from: nat, at: nat)
    requires from <= at && at + |PREFIX| <= |text| && Find(text[from..]) == Some(at - from)
    ensures Paths(text, from) == (if Hit(text, from, at) then {at} else {}) + Paths(text, Next(text, from, at))
  {
    hide Hit, Next, Find;
  }

  lemma StandsIsHit(text: string, from: nat, at: nat)
    requires from <= at <= |text| && Stands(text, at)
    ensures at + |PREFIX| <= |text| && Hit(text, from, at)
  {
    hide Slugged, Opens, OccursAt;
    if from < at {
      assert text[from..at][at - from - 1] == text[at - 1];
    }
  }

  lemma NextIsNoLater(text: string, from: nat, at: nat)
    requires from <= at && at + |PREFIX| <= |text|
    ensures from < Next(text, from, at) <= PathEnd(text, at)
  {
    hide Hit, PathEnd;
  }

  // A path that stands on its own does not start inside an earlier prefix, nor inside its slug.

  lemma Apart(text: string, first: nat, at: nat)
    requires first < at && OccursAt(text, first) && Stands(text, at)
    ensures first + |PREFIX| <= at
  {
    hide Slugged;
    if at < first + |PREFIX| {
      OccurrenceIsSlice(text, first);
      assert text[at - 1] == text[first..first + 10][at - 1 - first] == PREFIX[at - 1 - first];
      PrefixOpensNothing(at - 1 - first);
    }
  }

  lemma PrefixOpensNothing(i: nat)
    requires i < 9
    ensures i < |PREFIX| && !Opens(PREFIX[i])
  {
    assert PREFIX[i] in ['/', 'p', 'r', 'o', 'j', 'e', 'c', 't', 's'];
  }

  lemma PastPath(text: string, first: nat, at: nat)
    requires first + |PREFIX| <= at && Stands(text, at)
    ensures PathEnd(text, first) <= at
  {
    hide Slugged, Opens;
    var after := text[first + |PREFIX|..];
    assert text[at] == '/' by { OccurrenceIsSlice(text, at); assert text[at] == text[at..at + 10][0]; }
    assert after[at - (first + |PREFIX|)] == text[at];
  }

  /** Every rewritten path is a slug behind a prefix, on its own or right behind an earlier match. */
  lemma {:induction false} RewrittenPathIsAPath(text: string, from: nat, at: nat)
    requires from <= |text| && at in Paths(text, from)
    requires from == 0 || Follows(text, from)
    ensures from <= at && at + |PREFIX| <= |text| && OccursAt(text, at) && Slugged(text[at + |PREFIX|..])
    ensures at == 0 || Opens(text[at - 1]) || Follows(text, at)
    decreases |text| - from
  {
    hide Find, Hit, Next, Slugged, Follows, OccursAt, Opens;
    match Find(text[from..])
    case Some(i) =>
      var next := Next(text, from, from + i);
      FoundAt(text, from, i);
      if at in Paths(text, next) {
        FollowsNext(text, from, from + i);
        RewrittenPathIsAPath(text, next, at);
      } else {
        HitIsAPath(text, from, at);
      }
  }

  lemma FoundAt(text: string, from: nat, i: nat)
    requires from <= |text| && Find(text[from..]) == Some(i)
    ensures OccursAt(text, from + i)
  {
    FindFinds(text[from..]);
    assert text[from..][i..] == text[from + i..];
  }

  lemma HitIsAPath(text: string, from: nat, at: nat)
    requires from <= at && at + |PREFIX| <= |text| && Hit(text, from, at)
    ensures Slugged(text[at + |PREFIX|..]) && (at == from || Opens(text[at - 1]))
  {
    hide Slugged, Opens;
  }

  lemma FollowsNext(text: string, from: nat, at: nat)
    requires from <= at && at + |PREFIX| <= |text| && OccursAt(text, at)
    ensures Follows(text, Next(text, from, at))
  {
    var next := Next(text, from, at);
    forall i | at + |PREFIX| <= i < next
      ensures IsSlugChar(text[i])
    {
      assert text[at + |PREFIX|..][i - (at + |PREFIX|)] == text[i];
    }
  }

  // ----- one path, character by character

  /** Unicode's White_Space, by code point. */
  predicate WhiteCode(c: int) {
    || 9 <= c <= 13 || 0x2000 <= c <= 0x200a
    || c in {0x20, 0x85, 0xa0, 0x1680, 0x2028, 0x2029, 0x202f, 0x205f, 0x3000}
  }

  /** A lower-case letter, a digit or one of `-{}`. */
  predicate SlugCode(c: int) {
    97 <= c <= 122 || 48 <= c <= 57 || c in {45, 123, 125}
  }

  lemma CharsAre(c: char)
    ensures IsSlugChar(c) <==> SlugCode(c as int)
    ensures Opens(c) <==> WhiteCode(c as int) || c in {'`', '(', '"', '\'', '['}
    ensures Closes(c) <==> WhiteCode(c as int) || c in {'/', '?', '#', '`', ')', '"', '\'', '.', ','}
  {
    SpacesAre(c);
    hide IsWhitespace, WhiteCode;
  }

  lemma SpacesAre(c: char)
    ensures IsWhitespace(c) <==> WhiteCode(c as int)
  {}

  lemma {:induction false} NoneLater(text: string, k: nat)
    requires Find(text) == None && k <= |text|
    ensures Find(text[k..]) == None
  {
    if k > 0 && |text| >= |PREFIX| {
      NoneLater(text[1..], k - 1);
      assert text[1..][k - 1..] == text[k..];
    }
  }

  /**
   A text with one path in it: the path is put on the Portal and the project exactly when nothing, white
   space, a quote, a backtick or an opening bracket stands before it and its slug, which is not empty,
   ends at the end of the text, white space or one of the characters that end a path.
   */
  lemma OnePath(before: string, slug: string, after: string, portal: string, project: string)
    requires NoneBefore(before + "/projects/" + (slug + after), |before|) && Find(slug + after) == None
    requires forall c | c in slug :: SlugCode(c as int)
    requires after == "" || !SlugCode(after[0] as int)
    ensures var text := before + "/projects/" + (slug + after);
      RewriteOf(text, portal, project) ==
      if && (before == "" || WhiteCode(before[|before| - 1] as int)
             || before[|before| - 1] in {'`', '(', '"', '\'', '['})
         && slug != ""
         && (after == "" || WhiteCode(after[0] as int)
             || after[0] in {'/', '?', '#', '`', ')', '"', '\'', '.', ','})
      then before + portal + "/projects/" + project + after
      else text
  {
    var rest := slug + after;
    assert PREFIX == "/projects/";
    Unfold(before, rest, portal, project);
    SlugEnds(slug, after);
    NoneLater(rest, |slug|);
    assert rest[|slug|..] == after;
    LastStep(after, portal, project);
    LastStep(rest, portal, project);
    if before != "" {
      CharsAre(before[|before| - 1]);
    }
    if after != "" {
      CharsAre(after[0]);
    }
    hide RewriteOf, Find, NoneBefore, SlugLength, Opens, Closes, WhiteCode, PREFIX;
  }

  lemma SlugEnds(slug: string, after: string)
    requires forall c | c in slug :: SlugCode(c as int)
    requires after == "" || !SlugCode(after[0] as int)
    ensures SlugLength(slug + after) == |slug|
  {
    var rest := slug + after;
    forall i | 0 <= i < |slug|
      ensures IsSlugChar(rest[i])
    {
      assert rest[i] in slug;
      CharsAre(rest[i]);
    }
    if after != "" {
      CharsAre(after[0]);
      assert rest[|slug|] == after[0];
    }
    hide IsSlugChar;
  }
}
