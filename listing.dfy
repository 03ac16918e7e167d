/**
 * What one listing card turns into: the trimmed title, the normalised date,
 * the identity key `site-title` and the message block announcing it, and the
 * candidates a run collects, site by site and card by card.
 */
module Listing {
  import opened Wrappers
  import opened Text

  /** The site names of the registry, in the order a run visits them. */
  const SiteNames: seq<string> := ["Anbean", "Coderspace", "Youthall", "Boomerang"]

  /** Stored as the date of a card that has no date element. */
  const NoDate: string := "Bilgi yok"

  /**
   * What the extractor reads from one card: the text of its title element and
   * of its date element, each `None` when the card has no such element.
   */
  datatype Card = Card(title: Option<string>, date: Option<string>)

  /**
   * One site's scan as the extractor delivers it: the site's name, its cards in
   * page order, and `failsAt == Some(j)` when reading card `j` raised (`Some(0)`
   * also when navigating, waiting, scrolling or querying the cards raised).
   * A page without matching cards is `cards == []` with `failsAt == None`.
   */
  datatype SiteScan = SiteScan(name: string, cards: seq<Card>, failsAt: Option<nat>)

  /** A card that passed the title filter, ready to be checked against the archive. */
  datatype Candidate = Candidate(key: string, date: string, message: string)

  /** The scans of one run come from the registry's sites, in registry order. */
  predicate FollowsRegistry(sites: seq<SiteScan>) {
    |sites| == |SiteNames| && forall i :: 0 <= i < |sites| ==> sites[i].name == SiteNames[i]
  }

  function NormalizeTitle(title: Option<string>): string {
    match title
    case Some(t) => Strip(t)
    case None => []
  }

  /**
   * `r` is the part of `d` starting at `i` with each newline read as a space,
   * and only whitespace lies before and after that part in `d`.
   */
  predicate SpacedSliceOf(d: string, r: string, i: nat) {
    && i + |r| <= |d|
    && AllSpace(d[..i])
    && AllSpace(d[i + |r|..])
    && forall k :: 0 <= k < |r| ==> r[k] == (if d[i + k] == '\n' then ' ' else d[i + k])
  }

  /**
   * The date stored for a card: the sentinel when there is no date element,
   * otherwise its text with the whitespace at both ends cut off and each
   * newline turned into a space. Either way it holds no newline and does not
   * start or end with whitespace.
   */
  function NormalizeDate(date: Option<string>): (r: string)
    ensures date.None? ==> r == NoDate
    ensures date.Some? ==> |r| <= |date.value| && exists i :: SpacedSliceOf(date.value, r, i)
    ensures forall i :: 0 <= i < |r| ==> r[i] != '\n'
    ensures |r| > 0 ==> !IsSpace(r[0]) && !IsSpace(r[|r| - 1])
  {
    match date
    case Some(d) =>
      StrippedDateSlice(d);
      ReplaceNewlines(Strip(d))
    case None => NoDate
  }

  /**
   * The stripped text with its newlines turned into spaces is a spaced slice of
   * the original, holds no newline and neither starts nor ends with whitespace.
   */
  lemma {:induction false} StrippedDateSlice(d: string)
    ensures var r := ReplaceNewlines(Strip(d));
      && |r| <= |d|
      && SpacedSliceOf(d, r, |d| - |TrimLeft(d)|)
      && (forall i :: 0 <= i < |r| ==> r[i] != '\n')
      && (|r| > 0 ==> !IsSpace(r[0]) && !IsSpace(r[|r| - 1]))
  {
    var t, i := Strip(d), |d| - |TrimLeft(d)|;
    StripSlice(d);
    assert PaddedBy(d, t, i);
    SpacedFromPadded(d, t, i);
  }

  lemma {:induction false} SpacedFromPadded(d: string, t: string, i: nat)
    requires PaddedBy(d, t, i)
    requires |t| > 0 ==> !IsSpace(t[0]) && !IsSpace(t[|t| - 1])
    ensures var r := ReplaceNewlines(t);
      && |r| <= |d|
      && SpacedSliceOf(d, r, i)
      && (forall i :: 0 <= i < |r| ==> r[i] != '\n')
      && (|r| > 0 ==> !IsSpace(r[0]) && !IsSpace(r[|r| - 1]))
  {
    var r := ReplaceNewlines(t);
    ReplaceNewlinesStripped(t);
    forall k | 0 <= k < |r| ensures r[k] == (if d[i + k] == '\n' then ' ' else d[i + k]) {
      assert t[k] == d[i + k];
    }
  }

  predicate IsValidTitle(title: string) {
    title != [] && |title| > 2
  }

  /**
   * The identity key of a listing: the site name, `-` and the title. For a site
   * name without `-`, the site name and the title can be read back from it.
   */
  function Key(site: string, title: string): (r: string)
    ensures '-' !in site ==> SplitKey(r) == Some((site, title))
  {
    var k := site + "-" + title;
    assert k[..|site|] == site && k[|site|] == '-' && k[|site| + 1..] == title;
    assert '-' !in site ==> IndexOf(k, '-') == Some(|site|);
    k
  }

  /** The position of the first `c` in `s`. */
  function IndexOf(s: string, c: char): (r: Option<nat>)
    ensures r.None? <==> c !in s
    ensures r.Some? ==> r.value < |s| && s[r.value] == c && c !in s[..r.value]
  {
    if s == [] then None
    else if s[0] == c then Some(0)
    else match IndexOf(s[1..], c)
      case None => None
      case Some(i) =>
        assert s[..i + 1] == [s[0]] + s[1..][..i];
        Some(i + 1)
  }

  /** The position of the last `c` in `s`. */
  function LastIndexOf(s: string, c: char): (r: Option<nat>)
    ensures r.None? <==> c !in s
    ensures r.Some? ==> r.value < |s| && s[r.value] == c && c !in s[r.value + 1..]
  {
    if s == [] then None
    else if s[|s| - 1] == c then Some(|s| - 1)
    else
      var init := s[..|s| - 1];
      match LastIndexOf(init, c)
      case None => None
      case Some(i) =>
        assert s[i + 1..] == init[i + 1..] + [s[|s| - 1]];
        Some(i)
  }

  /** Reads a key back as the site name before its first `-` and the title after it. */
  function SplitKey(key: string): Option<(string, string)> {
    match IndexOf(key, '-')
    case None => None
    case Some(i) => Some((key[..i], key[i + 1..]))
  }

  /** No registry site name holds a `-`. */
  lemma {:induction false} RegistryNamesDashFree(name: string)
    requires name in SiteNames
    ensures '-' !in name
  {
  }

  /** So keys of different listings of the registry's sites never collide. */
  lemma {:induction false} KeyInjective(s1: string, t1: string, s2: string, t2: string)
    requires s1 in SiteNames && s2 in SiteNames
    requires Key(s1, t1) == Key(s2, t2)
    ensures s1 == s2 && t1 == t2
  {
    RegistryNamesDashFree(s1);
    RegistryNamesDashFree(s2);
    assert SplitKey(Key(s1, t1)) == Some((s1, t1));
  }

  /** The three fixed pieces of a message block: before the site, before the title, before the date. */
  const SitePrefix: string := "\U{1F4CC} *"
  const TitlePrefix: string := "*\n\U{1F4DD} "
  const DatePrefix: string := "\n\U{23F3} "

  /**
   * The message block announcing a new listing: a pin and the site in bold, a
   * memo and the title, an hourglass and the date, on three lines. For a site
   * name without `*` and a date without a newline, the three parts can be read
   * back from the block.
   */
  function Message(site: string, title: string, date: string): (r: string)
    ensures '*' !in site && '\n' !in date ==> ParseMessage(r) == Some((site, title, date))
  {
    var m := SitePrefix + site + TitlePrefix + title + DatePrefix + date;
    assert '*' !in site && '\n' !in date ==> ParseMessage(m) == Some((site, title, date)) by {
      if '*' !in site && '\n' !in date {
        MessageParses(site, title, date);
      }
    }
    m
  }

  lemma {:induction false} MessageParses(site: string, title: string, date: string)
    requires '*' !in site && '\n' !in date
    ensures ParseMessage(SitePrefix + site + TitlePrefix + title + DatePrefix + date) == Some((site, title, date))
  {
    var body := title + DatePrefix + date;
    var rest := site + TitlePrefix + body;
    assert SitePrefix + site + TitlePrefix + title + DatePrefix + date == SitePrefix + rest;
    assert (SitePrefix + rest)[..|SitePrefix|] == SitePrefix && (SitePrefix + rest)[|SitePrefix|..] == rest;
    SiteParses(site, body);
    BodyParses(title, date);
  }

  lemma {:induction false} SiteParses(site: string, body: string)
    requires '*' !in site
    ensures ParseSite(site + TitlePrefix + body) == Some((site, body))
  {
    var rest := site + TitlePrefix + body;
    assert rest == site + ['*'] + (TitlePrefix[1..] + body);
    IndexOfAfter(site, '*', TitlePrefix[1..] + body);
    assert rest[|site|..|site| + |TitlePrefix|] == TitlePrefix;
    assert rest[|site| + |TitlePrefix|..] == body;
    assert rest[..|site|] == site;
  }

  lemma {:induction false} BodyParses(title: string, date: string)
    requires '\n' !in date
    ensures ParseBody(title + DatePrefix + date) == Some((title, date))
  {
    var body := title + DatePrefix + date;
    assert '\n' !in DatePrefix[1..] + date;
    assert body == title + ['\n'] + (DatePrefix[1..] + date);
    LastIndexOfBefore(title, '\n', DatePrefix[1..] + date);
    assert body[|title|..|title| + |DatePrefix|] == DatePrefix;
    assert body[..|title|] == title;
    assert body[|title| + |DatePrefix|..] == date;
  }

  lemma {:induction false} IndexOfAfter(a: string, c: char, b: string)
    requires c !in a
    ensures IndexOf(a + [c] + b, c) == Some(|a|)
  {
    var s := a + [c] + b;
    assert s[|a|] == c && s[..|a|] == a;
  }

  lemma {:induction false} LastIndexOfBefore(a: string, c: char, b: string)
    requires c !in b
    ensures LastIndexOf(a + [c] + b, c) == Some(|a|)
  {
    var s := a + [c] + b;
    assert s[|a|] == c && s[|a| + 1..] == b;
  }

  /** Reads a message block back into its site, title and date. */
  function ParseMessage(m: string): Option<(string, string, string)> {
    if |m| < |SitePrefix| || m[..|SitePrefix|] != SitePrefix then None
    else match ParseSite(m[|SitePrefix|..])
      case None => None
      case Some((site, body)) =>
        match ParseBody(body)
        case None => None
        case Some((title, date)) => Some((site, title, date))
  }

  /** Splits the text after the pin into the site (up to the first `*`) and the rest after the memo. */
  function ParseSite(rest: string): Option<(string, string)> {
    match IndexOf(rest, '*')
    case None => None
    case Some(i) =>
      if |rest| < i + |TitlePrefix| || rest[i..i + |TitlePrefix|] != TitlePrefix then None
      else Some((rest[..i], rest[i + |TitlePrefix|..]))
  }

  /** Splits title and date at the last newline, which must be followed by the hourglass. */
  function ParseBody(body: string): Option<(string, string)> {
    match LastIndexOf(body, '\n')
    case None => None
    case Some(j) =>
      if |body| < j + |DatePrefix| || body[j..j + |DatePrefix|] != DatePrefix then None
      else Some((body[..j], body[j + |DatePrefix|..]))
  }

  /**
   * The candidate a card gives, if any: only a card whose title element exists
   * and whose trimmed text is longer than two characters; its key is the site
   * name, `-` and that trimmed title.
   */
  function CardCandidate(site: string, card: Card): (r: Option<Candidate>)
    ensures r.Some? <==> card.title.Some? && |Strip(card.title.value)| > 2
    ensures r.Some? ==> r.value.key == site + "-" + Strip(card.title.value)
    ensures r.Some? ==> r.value.date == NormalizeDate(card.date)
    ensures r.Some? ==> r.value.message == Message(site, Strip(card.title.value), NormalizeDate(card.date))
    ensures r.Some? && '*' !in site ==>
      ParseMessage(r.value.message) == Some((site, Strip(card.title.value), NormalizeDate(card.date)))
  {
    var title := NormalizeTitle(card.title);
    var date := NormalizeDate(card.date);
    if IsValidTitle(title) then Some(Candidate(Key(site, title), date, Message(site, title, date)))
    else None
  }

  /** Two cards of one site whose titles differ only in surrounding whitespace get the same key. */
  lemma {:induction false} KeyIgnoresPadding(site: string, c1: Card, c2: Card, left: string, right: string)
    requires AllSpace(left) && AllSpace(right)
    requires c2.title.Some? && c1.title == Some(left + c2.title.value + right)
    requires CardCandidate(site, c2).Some?
    ensures CardCandidate(site, c1).Some?
    ensures CardCandidate(site, c1).value.key == CardCandidate(site, c2).value.key
  {
    StripPadding(left, c2.title.value, right);
  }

  /** The cards of a scan that are handled: those before the one that raised. */
  function Reached(scan: SiteScan): (r: seq<Card>)
    ensures r <= scan.cards
    ensures scan.failsAt.None? ==> r == scan.cards
    ensures scan.failsAt.Some? ==> |r| == Min(scan.failsAt.value, |scan.cards|)
  {
    match scan.failsAt
    case Some(j) => if j < |scan.cards| then scan.cards[..j] else scan.cards
    case None => scan.cards
  }

  function Min(a: int, b: int): int {
    if a < b then a else b
  }

  function Extra(c: Option<Candidate>): seq<Candidate> {
    match c
    case Some(x) => [x]
    case None => []
  }

  /** The candidates of a site's cards, in card order. */
  function SiteCandidates(site: string, cards: seq<Card>): (r: seq<Candidate>)
    ensures |r| <= |cards|
    decreases |cards|
  {
    if cards == [] then []
    else SiteCandidates(site, cards[..|cards| - 1]) + Extra(CardCandidate(site, cards[|cards| - 1]))
  }

  /** Every card that passes the title filter gives its candidate to the site's candidates. */
  lemma {:induction false} SiteCandidatesComplete(site: string, cards: seq<Card>, j: nat, x: Candidate)
    requires j < |cards| && CardCandidate(site, cards[j]) == Some(x)
    ensures x in SiteCandidates(site, cards)
    decreases |cards|
  {
    var init, n := cards[..|cards| - 1], |cards| - 1;
    var extra := Extra(CardCandidate(site, cards[n]));
    assert SiteCandidates(site, cards) == SiteCandidates(site, init) + extra;
    if j < n {
      assert init[j] == cards[j];
      SiteCandidatesComplete(site, init, j, x);
    } else {
      assert j == n;
      assert Extra(Some(x)) == [x];
    }
  }

  /** Every candidate of a site is the candidate of one of its cards. */
  lemma {:induction false} SiteCandidatesSound(site: string, cards: seq<Card>, c: Candidate)
    requires c in SiteCandidates(site, cards)
    ensures exists j :: 0 <= j < |cards| && CardCandidate(site, cards[j]) == Some(c)
    decreases |cards|
  {
    var init, n := cards[..|cards| - 1], |cards| - 1;
    var extra := Extra(CardCandidate(site, cards[n]));
    assert SiteCandidates(site, cards) == SiteCandidates(site, init) + extra;
    if c in SiteCandidates(site, init) {
      SiteCandidatesSound(site, init, c);
      var j :| 0 <= j < |init| && CardCandidate(site, init[j]) == Some(c);
      assert cards[j] == init[j];
    } else {
      assert c in extra;
      assert CardCandidate(site, cards[n]) == Some(c);
    }
  }

  /**
   * Exactly the cards that pass the title filter give candidates: each such
   * card's candidate is among the site's, and each of the site's candidates is
   * the candidate of one of its cards.
   */
  lemma {:induction false} SiteCandidatesExactly(site: string, cards: seq<Card>)
    ensures forall j :: 0 <= j < |cards| && CardCandidate(site, cards[j]).Some? ==>
      CardCandidate(site, cards[j]).value in SiteCandidates(site, cards)
    ensures forall c :: c in SiteCandidates(site, cards) ==>
      exists j :: 0 <= j < |cards| && CardCandidate(site, cards[j]) == Some(c)
  {
    forall j | 0 <= j < |cards| && CardCandidate(site, cards[j]).Some?
      ensures CardCandidate(site, cards[j]).value in SiteCandidates(site, cards)
    {
      SiteCandidatesComplete(site, cards, j, CardCandidate(site, cards[j]).value);
    }
    forall c | c in SiteCandidates(site, cards)
      ensures exists j :: 0 <= j < |cards| && CardCandidate(site, cards[j]) == Some(c)
    {
      SiteCandidatesSound(site, cards, c);
    }
  }

  /** The candidates of a run: site order, then card order within a site. */
  function Candidates(sites: seq<SiteScan>): seq<Candidate>
    decreases |sites|
  {
    if sites == [] then []
    else
      var last := sites[|sites| - 1];
      Candidates(sites[..|sites| - 1]) + SiteCandidates(last.name, Reached(last))
  }

  /** Every candidate of a site passed the title filter and carries that site's key prefix. */
  lemma {:induction false} SiteCandidatesKeyed(site: string, cards: seq<Card>)
    ensures forall c :: c in SiteCandidates(site, cards) ==> |c.key| > |site| + 3 && c.key == Key(site, c.key[|site| + 1..])
    decreases |cards|
  {
    if cards != [] {
      SiteCandidatesKeyed(site, cards[..|cards| - 1]);
    }
  }

  /**
   * A site that raised part-way keeps what its earlier cards contributed: its
   * candidates are a prefix of those the whole page would have given.
   */
  lemma {:induction false} SiteCandidatesPrefix(site: string, cards: seq<Card>, j: nat)
    requires j <= |cards|
    ensures SiteCandidates(site, cards[..j]) <= SiteCandidates(site, cards)
    decreases |cards|
  {
    if j < |cards| {
      var shorter := cards[..|cards| - 1];
      assert cards[..j] == shorter[..j];
      SiteCandidatesPrefix(site, shorter, j);
    } else {
      assert cards[..j] == cards;
    }
  }

  lemma {:induction false} FailedSiteKeepsPrefix(scan: SiteScan)
    ensures SiteCandidates(scan.name, Reached(scan)) <= SiteCandidates(scan.name, scan.cards)
  {
    SiteCandidatesPrefix(scan.name, scan.cards, |Reached(scan)|);
    assert scan.cards[..|Reached(scan)|] == Reached(scan);
  }
}
