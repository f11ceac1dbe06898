/**
 The sync of a CKAN catalogue into the page index: the listing is read page by page, every new or
 changed dataset is written, and what the whole listing no longer names is removed.

 A dataset carries the page and the how-to rendered from it. SHA-256 is a function of the page. The
 index is the map of one site's pages; a write of it succeeds.
 */
module Ckan {
  import opened Wrappers

  /** Datasets asked for in one listing request. */
  const ROWS := 100

  datatype Dataset = Dataset(name: string, hidden: bool, modified: Option<string>, html: string, howTo: Option<string>)

  /** What the index holds of a page: the dataset's own change date and the hash of the page it became. */
  datatype Page = Page(modified: Option<string>, hash: Option<nat>)

  type Index = map<string, Page>

  /** One answer of the listing: how many datasets there are in all, and some of them. */
  datatype SearchPage = SearchPage(count: nat, results: seq<Dataset>)

  predicate IsDatasetName(name: string) {
    2 <= |name| <= 100 && forall c | c in name :: 'a' <= c <= 'z' || '0' <= c <= '9' || c == '-' || c == '_'
  }

  const DATASET := "dataset/"

  function Address(base: string, d: Dataset): string {
    base + DATASET + d.name
  }

  // ----- the simple form: which datasets are listed, and the index rebuilt from them

  predicate Names(chosen: seq<Dataset>, name: string) {
    exists d | d in chosen :: d.name == name
  }

  predicate Skipped(chosen: seq<Dataset>, d: Dataset) {
    d.hidden || !IsDatasetName(d.name) || Names(chosen, d.name)
  }

  /** The datasets taken from one answer behind the ones taken before, and whether the cap stopped it. */
  function Choose(results: seq<Dataset>, chosen: seq<Dataset>, cap: nat): (seq<Dataset>, bool) {
    if results == [] then (chosen, false)
    else if |chosen| >= cap then (chosen, true)
    else if Skipped(chosen, results[0]) then Choose(results[1..], chosen, cap)
    else Choose(results[1..], chosen + [results[0]], cap)
  }

  datatype Listing = Whole(chosen: seq<Dataset>) | Partial(chosen: seq<Dataset>)

  /** The listing read from its answer `i` on; an answer that is missing or no answer ends it part way. */
  function List(answers: seq<Option<SearchPage>>, i: nat, chosen: seq<Dataset>, cap: nat): Listing
    decreases |answers| - i
  {
    if i >= |answers| || answers[i] == None then Partial(chosen)
    else
      var page := answers[i].value;
      var (now, capped) := Choose(page.results, chosen, cap);
      if capped || page.results == [] || (i + 1) * ROWS >= page.count then Whole(now)
      else List(answers, i + 1, now, cap)
  }

  function PageOf(d: Dataset, sha: string -> nat): Page {
    Page(d.modified, Some(sha(d.html)))
  }

  /** The dataset pages, as an empty index would get them. */
  function Pages(base: string, chosen: seq<Dataset>, sha: string -> nat): Index {
    if chosen == [] then map[]
    else
      var before, d := Pages(base, chosen[..|chosen| - 1], sha), chosen[|chosen| - 1];
      before[Address(base, d) := PageOf(d, sha)]
  }

  /** The how-to of the first dataset that has one. */
  function HowTo(chosen: seq<Dataset>): Option<string> {
    if chosen == [] then None
    else
      var before := HowTo(chosen[..|chosen| - 1]);
      if before.Some? then before else chosen[|chosen| - 1].howTo
  }

  function HowToPage(base: string, chosen: seq<Dataset>, sha: string -> nat): Index {
    match HowTo(chosen)
    case None => map[]
    case Some(html) => map[base := Page(None, Some(sha(html)))]
  }

  /** The index rebuilt from scratch. */
  function Rebuilt(base: string, chosen: seq<Dataset>, sha: string -> nat): Index {
    Pages(base, chosen, sha) + HowToPage(base, chosen, sha)
  }

  /** The addresses of the listed datasets. */
  function Addresses(base: string, chosen: seq<Dataset>): set<string> {
    set d | d in chosen :: Address(base, d)
  }

  /**
   The index after a sync: the rebuilt one, but for a how-to with an unchanged hash, which stays as
   it was known.
   */
  function Synced(known: Index, base: string, chosen: seq<Dataset>, sha: string -> nat): Index {
    match HowTo(chosen)
    case None => Pages(base, chosen, sha)
    case Some(html) =>
      Pages(base, chosen, sha)
        [base := if HowToKnown(known, base, html, sha) then known[base] else Page(None, Some(sha(html)))]
  }

  /** Whether the page is known to have been written from this date and this content. */
  predicate Unchanged(known: Index, url: string, page: Page) {
    url in known && known[url].modified.Some? && known[url] == page
  }

  /** What the sink is handed: the listed datasets' pages that are not known unchanged, in order. */
  function Handed(known: Index, base: string, chosen: seq<Dataset>, sha: string -> nat): seq<(string, string)> {
    if chosen == [] then []
    else
      var d := chosen[|chosen| - 1];
      Handed(known, base, chosen[..|chosen| - 1], sha)
      + if Unchanged(known, Address(base, d), PageOf(d, sha)) then [] else [(Address(base, d), d.html)]
  }

  predicate HowToKnown(known: Index, base: string, html: string, sha: string -> nat) {
    base in known && known[base].hash == Some(sha(html))
  }

  function HandedHowTo(known: Index, base: string, chosen: seq<Dataset>, sha: string -> nat): seq<(string, string)> {
    match HowTo(chosen)
    case None => []
    case Some(html) => if HowToKnown(known, base, html, sha) then [] else [(base, html)]
  }

  // ----- the sync

  /** What one run did. */
  datatype Report = Report(datasets: nat, changed: nat, removed: nat)

  class Site {
    const base: string
    var pages: Index
    /** Everything handed to the sink, as address and page. */
    var handed: seq<(string, string)>

    constructor (base: string, pages: Index)
      ensures this.base == base && this.pages == pages && handed == []
    {
      this.base, this.pages, handed := base, pages, [];
    }

    ghost predicate Written(known: Index, chosen: seq<Dataset>, sha: string -> nat, sent: seq<(string, string)>)
      reads this
    {
      pages == known + Pages(base, chosen, sha) && handed == sent + Handed(known, base, chosen, sha)
    }

    /** Writes one dataset that was not listed before, when it is new or changed. */
    method TakeDataset(known: Index, d: Dataset, sha: string -> nat,
                       ghost chosen: seq<Dataset>, ghost sent: seq<(string, string)>)
      returns (changed: bool)
      requires Written(known, chosen, sha, sent) && !Names(chosen, d.name)
      modifies this
      ensures Written(known, chosen + [d], sha, sent)
      ensures |handed| == |old(handed)| + if changed then 1 else 0
    {
      hide Names, Pages, Handed, Unchanged, Address;
      var url := Address(base, d);
      var page := PageOf(d, sha);
      OneMore(base, chosen, d, sha, known);
      NotYetWritten(base, chosen, d, sha);
      changed := !Unchanged(known, url, page);
      if changed {
        pages := pages[url := page];
        handed := handed + [(url, d.html)];
      } else {
        KnownStays(known, Pages(base, chosen, sha), url, page);
      }
    }

    /** Takes the datasets of one answer, writing the ones that are new or changed. */
    method TakePage(known: Index, results: seq<Dataset>, chosen: seq<Dataset>, cap: nat, sha: string -> nat,
                    ghost sent: seq<(string, string)>)
      returns (now: seq<Dataset>, capped: bool, changed: nat)
      requires Written(known, chosen, sha, sent)
      modifies this
      ensures (now, capped) == Choose(results, chosen, cap) && Written(known, now, sha, sent)
      ensures |handed| == |old(handed)| + changed
    {
      hide Names, IsDatasetName, Written;
      now, capped, changed := chosen, false, 0;
      var i := 0;
      while i < |results|
        invariant 0 <= i <= |results|
        invariant Choose(results, chosen, cap) == Choose(results[i..], now, cap)
        invariant Written(known, now, sha, sent)
        invariant |handed| == |old(handed)| + changed
      {
        if |now| >= cap {
          return now, true, changed;
        }
        var d := results[i];
        assert results[i..][1..] == results[i + 1..];
        if !Skipped(now, d) {
          var wrote := TakeDataset(known, d, sha, now, sent);
          changed := changed + if wrote then 1 else 0;
          now := now + [d];
        }
        i := i + 1;
      }
      assert results[|results|..] == [];
    }

    /** Reads the listing, writing as it goes; `whole` when it was read to its end or the cap. */
    method ReadListing(answers: seq<Option<SearchPage>>, cap: nat, sha: string -> nat)
      returns (whole: bool, listed: seq<Dataset>, changed: nat)
      modifies this
      ensures List(answers, 0, [], cap) == if whole then Whole(listed) else Partial(listed)
      ensures Written(old(pages), listed, sha, old(handed)) && |handed| == |old(handed)| + changed
    {
      var known := pages;
      ghost var sent := handed;
      listed, changed := [], 0;
      assert Written(known, [], sha, sent) by {
        assert known + map[] == known && sent + [] == sent;
      }
      hide Written, Choose;
      var i := 0;
      while true
        invariant List(answers, 0, [], cap) == List(answers, i, listed, cap)
        invariant Written(known, listed, sha, sent) && |handed| == |sent| + changed
        decreases |answers| - i
      {
        if i >= |answers| || answers[i] == None {
          return false, listed, changed;
        }
        var page := answers[i].value;
        var capped, more;
        listed, capped, more := TakePage(known, page.results, listed, cap, sha, sent);
        changed := changed + more;
        i := i + 1;
        if capped || page.results == [] || i * ROWS >= page.count {
          return true, listed, changed;
        }
      }
    }

    /** Syncs the catalogue; `None` when the listing failed part way. */
    method Sync(answers: seq<Option<SearchPage>>, cap: nat, sha: string -> nat)
      returns (report: Option<Report>, ghost chosen: seq<Dataset>)
      modifies this
      ensures List(answers, 0, [], cap) == if report.Some? then Whole(chosen) else Partial(chosen)
      ensures report.None? ==> Written(old(pages), chosen, sha, old(handed))
      ensures report.Some? ==> (base in pages <==> exists i | 0 <= i < |chosen| :: chosen[i].howTo.Some?)
      ensures report.Some? ==>
        && pages == Synced(old(pages), base, chosen, sha)
        && handed == old(handed) + (Handed(old(pages), base, chosen, sha) + HandedHowTo(old(pages), base, chosen, sha))
        && report.value == Report(|chosen|, |Handed(old(pages), base, chosen, sha)|, |old(pages).Keys - pages.Keys|)
    {
      var known := pages;
      ghost var sent := handed;
      var whole, listed, changed := ReadListing(answers, cap, sha);
      chosen := listed;
      if !whole {
        return None, chosen;
      }
      hide *;
      var removed := Finish(known, listed, sha, sent);
      report := Some(Report(|listed|, changed, removed));
    }

    /** Once the whole listing was read: the how-to is written, and what is not listed goes. */
    method Finish(known: Index, listed: seq<Dataset>, sha: string -> nat, ghost sent: seq<(string, string)>)
      returns (removed: nat)
      requires Written(known, listed, sha, sent)
      modifies this
      ensures pages == Synced(known, base, listed, sha) && removed == |known.Keys - pages.Keys|
      ensures base in pages <==> exists i | 0 <= i < |listed| :: listed[i].howTo.Some?
      ensures handed == sent + (Handed(known, base, listed, sha) + HandedHowTo(known, base, listed, sha))
    {
      hide Pages, Handed, Address, HowTo, Addresses, HowToKnown;
      var howTo := FindHowTo(listed);
      var kept := Addresses(base, listed);
      Regroup(sent, Handed(known, base, listed, sha), HandedHowTo(known, base, listed, sha));
      if howTo.Some? {
        kept := kept + {base};
        StoreConnect(known, howTo.value, sha);
      }
      SyncedKeys(known, base, listed, sha);
      HowToIsKept(known, base, listed, sha);
      hide HandedHowTo, Synced;
      removed := Sweep(kept);
    }

    /** The how-to of the first dataset that has one: once there is one, the later ones are not asked. */
    method FindHowTo(listed: seq<Dataset>) returns (howTo: Option<string>)
      ensures howTo == HowTo(listed)
      ensures howTo == None <==> forall i | 0 <= i < |listed| :: listed[i].howTo == None
    {
      howTo := None;
      for i := 0 to |listed|
        invariant howTo == HowTo(listed[..i])
      {
        assert listed[..i + 1][..i] == listed[..i];
        if howTo == None {
          howTo := listed[i].howTo;
        }
      }
      assert listed[..|listed|] == listed;
      HowToIsTheFirst(listed);
    }

    /** Removes every page whose address is not kept. */
    method Sweep(kept: set<string>) returns (removed: nat)
      modifies this`pages
      ensures pages == map url | url in old(pages) && url in kept :: old(pages)[url]
      ensures removed == |old(pages).Keys - kept|
    {
      removed := |pages.Keys - kept|;
      pages := map url | url in pages && url in kept :: pages[url];
    }

    /** Writes the how-to at the catalogue's own address when it changed. */
    method StoreConnect(known: Index, html: string, sha: string -> nat)
      modifies this
      ensures pages == if HowToKnown(known, base, html, sha) then old(pages)
                       else old(pages)[base := Page(None, Some(sha(html)))]
      ensures handed == old(handed) + if HowToKnown(known, base, html, sha) then [] else [(base, html)]
    {
      var hash := sha(html);
      if base !in known || known[base].hash != Some(hash) {
        pages := pages[base := Page(None, Some(hash))];
        handed := handed + [(base, html)];
      }
    }
  }

  lemma Regroup(a: seq<(string, string)>, b: seq<(string, string)>, c: seq<(string, string)>)
    ensures a + (b + c) == a + b + c && b + [] == b
  {}

  lemma KnownStays(known: Index, written: Index, url: string, page: Page)
    requires url !in written && Unchanged(known, url, page)
    ensures known + written[url := page] == known + written
  {}

  lemma {:induction false} PagesAddresses(base: string, chosen: seq<Dataset>, sha: string -> nat)
    ensures Pages(base, chosen, sha).Keys == Addresses(base, chosen) && base !in Addresses(base, chosen)
  {
    if chosen != [] {
      var before, d := chosen[..|chosen| - 1], chosen[|chosen| - 1];
      PagesAddresses(base, before, sha);
      SameAddress(base, d, d);
      assert chosen == before + [d];
      assert Addresses(base, chosen) == Addresses(base, before) + {Address(base, d)};
    }
  }

  // The pages written behind the known ones, cut down to the listed addresses, are the synced index.
  lemma SyncedKeys(known: Index, base: string, chosen: seq<Dataset>, sha: string -> nat)
    ensures var kept := Addresses(base, chosen) + if HowTo(chosen).Some? then {base} else {};
      var written := known + Pages(base, chosen, sha);
      var all := match HowTo(chosen)
        case None => written
        case Some(html) =>
          if HowToKnown(known, base, html, sha) then written else written[base := Page(None, Some(sha(html)))];
      && kept <= all.Keys && all.Keys - kept == known.Keys - kept
      && (map url | url in all && url in kept :: all[url]) == Synced(known, base, chosen, sha)
      && Synced(known, base, chosen, sha).Keys == kept
  {
    PagesAddresses(base, chosen, sha);
    hide Pages, Addresses, HowTo;
  }

  /** Whether dataset `i` is the first that has a how-to. */
  predicate FirstWithHowTo(chosen: seq<Dataset>, i: nat) {
    i < |chosen| && chosen[i].howTo.Some? && forall j | 0 <= j < i :: chosen[j].howTo == None
  }

  /** The how-to is the first dataset's that has one, and none exactly when none has. */
  lemma {:induction false} HowToIsTheFirst(chosen: seq<Dataset>)
    ensures HowTo(chosen) == None <==> forall i | 0 <= i < |chosen| :: chosen[i].howTo == None
    ensures forall i: nat | FirstWithHowTo(chosen, i) :: HowTo(chosen) == chosen[i].howTo
  {
    if chosen != [] {
      var before := chosen[..|chosen| - 1];
      HowToIsTheFirst(before);
      assert forall i | 0 <= i < |before| :: chosen[i] == before[i];
      assert forall i: nat | i < |before| :: FirstWithHowTo(chosen, i) <==> FirstWithHowTo(before, i);
    }
  }

  /**
   After a whole sync there is a page at the catalogue's own address exactly when some listed dataset
   has a how-to, with the hash of the first one's.
   */
  lemma HowToIsKept(known: Index, base: string, chosen: seq<Dataset>, sha: string -> nat)
    ensures var pages := Synced(known, base, chosen, sha);
      && (base in pages <==> exists i | 0 <= i < |chosen| :: chosen[i].howTo.Some?)
      && (forall i: nat | FirstWithHowTo(chosen, i) ::
            base in pages && pages[base].hash == Some(sha(chosen[i].howTo.value)))
  {
    HowToIsTheFirst(chosen);
    PagesAddresses(base, chosen, sha);
    hide Pages, HowTo;
  }

  lemma OneMore(base: string, chosen: seq<Dataset>, d: Dataset, sha: string -> nat, known: Index)
    ensures Pages(base, chosen + [d], sha) == Pages(base, chosen, sha)[Address(base, d) := PageOf(d, sha)]
    ensures Handed(known, base, chosen + [d], sha) == Handed(known, base, chosen, sha)
      + if Unchanged(known, Address(base, d), PageOf(d, sha)) then [] else [(Address(base, d), d.html)]
  {
    assert (chosen + [d])[..|chosen|] == chosen;
  }

  lemma {:induction false} NotYetWritten(base: string, chosen: seq<Dataset>, d: Dataset, sha: string -> nat)
    requires !Names(chosen, d.name)
    ensures Address(base, d) !in Pages(base, chosen, sha)
  {
    if chosen != [] {
      var last := chosen[|chosen| - 1];
      assert last in chosen;
      NotYetWritten(base, chosen[..|chosen| - 1], d, sha);
      SameAddress(base, d, last);
    }
  }

  lemma SameAddress(base: string, a: Dataset, b: Dataset)
    ensures Address(base, a) == Address(base, b) <==> a.name == b.name
    ensures Address(base, a) != base && Address(base, a) == base + "dataset/" + a.name
  {
    assert Address(base, a)[|base| + |DATASET|..] == a.name;
    assert Address(base, b)[|base| + |DATASET|..] == b.name;
    assert |Address(base, a)| > |base|;
  }

  // ----- what the index is after a sync

  /** After a whole sync the index is the one rebuilt from scratch, exactly when no dated how-to was kept. */
  lemma SyncedIsRebuilt(known: Index, base: string, chosen: seq<Dataset>, sha: string -> nat)
    ensures Synced(known, base, chosen, sha) == Rebuilt(base, chosen, sha) <==>
      (HowTo(chosen).Some? && HowToKnown(known, base, HowTo(chosen).value, sha) ==> known[base].modified == None)
  {
    PagesAddresses(base, chosen, sha);
    hide Pages, HowTo;
    if HowTo(chosen).Some? {
      assert base in Synced(known, base, chosen, sha);
      assert Rebuilt(base, chosen, sha)[base] == Page(None, Some(sha(HowTo(chosen).value)));
    }
  }

  /**
   A sync, whole or part way, never leaves a dated page at the catalogue's own address where there
   was none.
   */
  lemma HowToStaysUndated(known: Index, base: string, chosen: seq<Dataset>, sha: string -> nat)
    requires base in known ==> known[base].modified == None
    ensures var whole, partial := Synced(known, base, chosen, sha), known + Pages(base, chosen, sha);
      && (base in whole ==> whole[base].modified == None)
      && (base in partial ==> partial[base].modified == None)
  {
    PagesAddresses(base, chosen, sha);
    hide Pages, HowTo;
  }

  /** The index after a sequence of syncs from nothing, each one whole or failed part way. */
  function IndexAfter(syncs: seq<Listing>, base: string, sha: string -> nat): Index {
    if syncs == [] then map[]
    else
      var known := IndexAfter(syncs[..|syncs| - 1], base, sha);
      match syncs[|syncs| - 1]
      case Whole(chosen) => Synced(known, base, chosen, sha)
      case Partial(chosen) => known + Pages(base, chosen, sha)
  }

  lemma {:induction false} AlwaysUndated(syncs: seq<Listing>, base: string, sha: string -> nat)
    ensures var pages := IndexAfter(syncs, base, sha); base in pages ==> pages[base].modified == None
  {
    if syncs != [] {
      hide Synced, Pages;
      AlwaysUndated(syncs[..|syncs| - 1], base, sha);
      HowToStaysUndated(IndexAfter(syncs[..|syncs| - 1], base, sha), base, syncs[|syncs| - 1].chosen, sha);
    }
  }

  /**
   Whatever syncs came before, whole or failed part way, a whole one leaves the index rebuilt from
   its listing.
   */
  lemma EveryWholeSyncRebuilds(syncs: seq<Listing>, base: string, sha: string -> nat)
    requires syncs != [] && syncs[|syncs| - 1].Whole?
    ensures IndexAfter(syncs, base, sha) == Rebuilt(base, syncs[|syncs| - 1].chosen, sha)
  {
    hide Synced, Rebuilt;
    var before, chosen := syncs[..|syncs| - 1], syncs[|syncs| - 1].chosen;
    AlwaysUndated(before, base, sha);
    SyncedIsRebuilt(IndexAfter(before, base, sha), base, chosen, sha);
  }

  /** A sync that failed part way removed nothing, and changed a page only to what a whole one makes of it. */
  lemma PartialRemovesNothing(known: Index, base: string, chosen: seq<Dataset>, sha: string -> nat)
    ensures var pages := known + Pages(base, chosen, sha);
      && known.Keys <= pages.Keys
      && forall url | url in pages && (url !in known || known[url] != pages[url]) ::
           url in Rebuilt(base, chosen, sha) && pages[url] == Rebuilt(base, chosen, sha)[url]
  {
    PagesAddresses(base, chosen, sha);
    hide Pages, HowTo;
  }

  predicate Distinct(chosen: seq<Dataset>) {
    forall i, j | 0 <= i < j < |chosen| :: chosen[i].name != chosen[j].name
  }

  lemma {:induction false} PageOfEach(base: string, chosen: seq<Dataset>, sha: string -> nat, d: Dataset)
    requires Distinct(chosen) && d in chosen
    ensures Address(base, d) in Pages(base, chosen, sha) && Pages(base, chosen, sha)[Address(base, d)] == PageOf(d, sha)
    ensures Pages(base, chosen, sha)[base + "dataset/" + d.name] == Page(d.modified, Some(sha(d.html)))
  {
    var before, last := chosen[..|chosen| - 1], chosen[|chosen| - 1];
    assert chosen == before + [last];
    SameAddress(base, d, last);
    if d != last {
      PageOfEach(base, before, sha, d);
      var i :| 0 <= i < |before| && before[i] == d;
      assert chosen[i].name != last.name;
    }
  }

  /**
   What a sync that follows on an unchanged catalogue hands over again: the datasets without a
   date, and no how-to.
   */
  lemma {:induction false} SecondSync(
    known: Index, base: string, chosen: seq<Dataset>, sha: string -> nat, part: seq<Dataset>)
    requires Distinct(chosen) && part <= chosen
    ensures var again := Synced(known, base, chosen, sha);
      && Handed(again, base, part, sha) == Undated(base, part)
      && HandedHowTo(again, base, chosen, sha) == []
  {
    var again := Synced(known, base, chosen, sha);
    if part != [] {
      var d := part[|part| - 1];
      SecondSync(known, base, chosen, sha, part[..|part| - 1]);
      assert d in chosen;
      PageOfEach(base, chosen, sha, d);
      SameAddress(base, d, d);
      assert again[Address(base, d)] == PageOf(d, sha);
    }
  }

  function Undated(base: string, chosen: seq<Dataset>): seq<(string, string)> {
    if chosen == [] then []
    else
      var d := chosen[|chosen| - 1];
      Undated(base, chosen[..|chosen| - 1]) + if d.modified.Some? then [] else [(Address(base, d), d.html)]
  }

  // ----- which datasets are listed

  /**
   A dataset that is public and named as CKAN names datasets: lower-case letters, digits, `-` and
   `_` of ASCII.
   */
  predicate Listable(d: Dataset) {
    !d.hidden && |d.name| >= 2 && |d.name| <= 100
    && forall c | c in d.name :: c as int in {45, 95} || 48 <= c as int <= 57 || 97 <= c as int <= 122
  }

  lemma ListableIs(d: Dataset)
    ensures Listable(d) <==> !d.hidden && IsDatasetName(d.name)
  {}

  lemma {:induction false} Chosen(results: seq<Dataset>, chosen: seq<Dataset>, cap: nat)
    requires Distinct(chosen) && |chosen| <= cap && forall d | d in chosen :: Listable(d)
    ensures var (now, capped) := Choose(results, chosen, cap);
      && chosen <= now && Distinct(now) && |now| <= cap
      && (forall d | d in now :: Listable(d) && (d in chosen || d in results))
      && (capped ==> |now| == cap)
      && (!capped ==> forall d | d in results && Listable(d) :: Names(now, d.name))
  {
    if results != [] && |chosen| < cap {
      var d := results[0];
      assert results == [d] + results[1..];
      ListableIs(d);
      hide IsDatasetName, Listable;
      if Skipped(chosen, d) {
        Chosen(results[1..], chosen, cap);
        NamesStay(chosen, Choose(results[1..], chosen, cap).0, d.name);
      } else {
        var more := chosen + [d];
        assert forall x | x in chosen :: x.name != d.name;
        Chosen(results[1..], more, cap);
        assert d in more;
        NamesStay(more, Choose(results[1..], more, cap).0, d.name);
      }
    }
  }

  lemma NamesStay(chosen: seq<Dataset>, now: seq<Dataset>, name: string)
    requires chosen <= now
    ensures Names(chosen, name) ==> Names(now, name)
  {
    assert forall d | d in chosen :: d in now;
  }

  /**
   The datasets taken are listable, one of a name, at most the cap; short of the cap, a whole
   listing took every name its answers held.
   */
  lemma {:induction false} ListTakesAll(answers: seq<Option<SearchPage>>, i: nat, chosen: seq<Dataset>, cap: nat)
    returns (last: nat)
    requires Distinct(chosen) && |chosen| <= cap && forall d | d in chosen :: Listable(d)
    ensures var list := List(answers, i, chosen, cap);
      && Distinct(list.chosen) && |list.chosen| <= cap && chosen <= list.chosen
      && (forall d | d in list.chosen :: Listable(d))
      && (list.Whole? && |list.chosen| < cap ==>
            && i <= last < |answers|
            && (forall k, d | i <= k <= last && answers[k].Some? && d in answers[k].value.results && Listable(d) ::
                  Names(list.chosen, d.name))
            && (forall k | i <= k < last ::
                  answers[k].Some? && answers[k].value.results != [] && (k + 1) * 100 < answers[k].value.count)
            && answers[last].Some?
            && (answers[last].value.results == [] || (last + 1) * 100 >= answers[last].value.count))
    decreases |answers| - i
  {
    last := i;
    if i < |answers| && answers[i] != None {
      var page := answers[i].value;
      Chosen(page.results, chosen, cap);
      hide Choose, Names, Listable;
      var (now, capped) := Choose(page.results, chosen, cap);
      if !(capped || page.results == [] || (i + 1) * ROWS >= page.count) {
        last := ListTakesAll(answers, i + 1, now, cap);
        var end := List(answers, i + 1, now, cap).chosen;
        forall d | d in page.results && Listable(d)
          ensures Names(end, d.name)
        {
          NamesStay(now, end, d.name);
        }
      }
    }
  }
}
