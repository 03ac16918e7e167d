/**
 * Deduplication against the archive: each candidate whose key the archive
 * lacks yields a message and is inserted at once, so later candidates with
 * the same key, in this run or in later ones, stay silent.
 */
module Dedup {
  import opened Wrappers
  import opened Listing

  /** The archive (identity key to stored date) and the messages of the new listings so far. */
  datatype State = State(archive: map<string, string>, news: seq<string>)

  /**
   * Checking one candidate: an archived key changes nothing; a new key is
   * archived with the candidate's date and its message is queued. Either way
   * the key is archived afterwards and no earlier entry changes.
   */
  function Step(st: State, c: Candidate): (r: State)
    ensures r.archive.Keys == st.archive.Keys + {c.key}
    ensures forall k :: k in st.archive ==> r.archive[k] == st.archive[k]
    ensures c.key in st.archive ==> r.news == st.news
    ensures c.key !in st.archive ==> r.archive[c.key] == c.date && r.news == st.news + [c.message]
  {
    if c.key in st.archive then st
    else State(st.archive[c.key := c.date], st.news + [c.message])
  }

  /** The state after checking the candidates `cs`, in order, starting from `st`. */
  function RunFrom(st: State, cs: seq<Candidate>): State
    decreases |cs|
  {
    if cs == [] then st
    else Step(RunFrom(st, cs[..|cs| - 1]), cs[|cs| - 1])
  }

  /** The state after checking the candidates `cs` against the loaded archive. */
  function Run(loaded: map<string, string>, cs: seq<Candidate>): State {
    RunFrom(State(loaded, []), cs)
  }

  lemma {:induction false} RunSnoc(st: State, cs: seq<Candidate>, c: Candidate)
    ensures RunFrom(st, cs + [c]) == Step(RunFrom(st, cs), c)
  {
    assert (cs + [c])[..|cs|] == cs;
  }

  /** Checking two runs of candidates one after the other is checking them together. */
  lemma {:induction false} RunFromAppend(st: State, xs: seq<Candidate>, ys: seq<Candidate>)
    ensures RunFrom(st, xs + ys) == RunFrom(RunFrom(st, xs), ys)
    decreases |ys|
  {
    if ys == [] {
      assert xs + ys == xs;
    } else {
      var init := ys[..|ys| - 1];
      var last := ys[|ys| - 1];
      assert xs + ys == (xs + init) + [last];
      assert ys == init + [last];
      RunSnoc(st, xs + init, last);
      RunSnoc(RunFrom(st, xs), init, last);
      RunFromAppend(st, xs, init);
    }
  }

  function KeysOf(cs: seq<Candidate>): set<string> {
    set i | 0 <= i < |cs| :: cs[i].key
  }

  /** Candidate `i` is the first with its key, and the loaded archive lacks that key. */
  predicate FirstFresh(loaded: map<string, string>, cs: seq<Candidate>, i: int)
    requires 0 <= i < |cs|
  {
    cs[i].key !in loaded && forall j :: 0 <= j < i ==> cs[j].key != cs[i].key
  }

  /** The messages of the first-fresh candidates, in candidate order. */
  function FreshMessages(loaded: map<string, string>, cs: seq<Candidate>): seq<string>
    decreases |cs|
  {
    if cs == [] then []
    else
      FreshMessages(loaded, cs[..|cs| - 1])
      + (if FirstFresh(loaded, cs, |cs| - 1) then [cs[|cs| - 1].message] else [])
  }

  /**
   * The archive only grows: it ends with the loaded keys plus the keys of all
   * candidates, and every loaded key keeps its loaded value.
   */
  lemma {:induction false} RunGrows(loaded: map<string, string>, cs: seq<Candidate>)
    ensures Run(loaded, cs).archive.Keys == loaded.Keys + KeysOf(cs)
    ensures forall k :: k in loaded ==> Run(loaded, cs).archive[k] == loaded[k]
    decreases |cs|
  {
    if cs != [] {
      var init := cs[..|cs| - 1];
      RunGrows(loaded, init);
      assert KeysOf(cs) == KeysOf(init) + {cs[|cs| - 1].key} by {
        forall k | k in KeysOf(cs) ensures k in KeysOf(init) + {cs[|cs| - 1].key} {
          var i :| 0 <= i < |cs| && cs[i].key == k;
          if i < |cs| - 1 { assert init[i] == cs[i]; }
        }
        forall k | k in KeysOf(init) ensures k in KeysOf(cs) {
          var i :| 0 <= i < |init| && init[i].key == k;
          assert cs[i] == init[i];
        }
      }
    }
  }

  /** Exactly the first-fresh candidates are announced, in discovery order. */
  lemma {:induction false} RunNews(loaded: map<string, string>, cs: seq<Candidate>)
    ensures Run(loaded, cs).news == FreshMessages(loaded, cs)
    decreases |cs|
  {
    if cs != [] {
      var n := |cs| - 1;
      var init := cs[..n];
      RunNews(loaded, init);
      RunGrows(loaded, init);
      var c := cs[n];
      if c.key in Run(loaded, init).archive {
        if c.key !in loaded {
          var i :| 0 <= i < |init| && init[i].key == c.key;
          assert cs[i].key == c.key;
        }
        assert !FirstFresh(loaded, cs, n);
      } else {
        forall j | 0 <= j < n ensures cs[j].key != c.key {
          assert init[j] == cs[j];
          assert init[j].key in KeysOf(init);
        }
      }
    }
  }

  /** Within a run the first occurrence of a new key decides the stored date. */
  lemma {:induction false} RunFirstDateWins(loaded: map<string, string>, cs: seq<Candidate>, i: int)
    requires 0 <= i < |cs| && FirstFresh(loaded, cs, i)
    ensures cs[i].key in Run(loaded, cs).archive
    ensures Run(loaded, cs).archive[cs[i].key] == cs[i].date
    decreases |cs|
  {
    var n := |cs| - 1;
    var init := cs[..n];
    RunGrows(loaded, init);
    if i < n {
      assert init[i] == cs[i];
      assert FirstFresh(loaded, init, i) by {
        forall j | 0 <= j < i ensures init[j].key != init[i].key {
          assert init[j] == cs[j];
        }
      }
      RunFirstDateWins(loaded, init, i);
    }
  }

  /** Each announcement adds exactly one key: messages and added keys are equally many. */
  lemma {:induction false} RunCounts(loaded: map<string, string>, cs: seq<Candidate>)
    ensures |Run(loaded, cs).archive| == |loaded| + |Run(loaded, cs).news|
    decreases |cs|
  {
    if cs != [] {
      RunCounts(loaded, cs[..|cs| - 1]);
      var st := Run(loaded, cs[..|cs| - 1]);
      var c := cs[|cs| - 1];
      if c.key !in st.archive {
        assert st.archive[c.key := c.date].Keys == st.archive.Keys + {c.key};
      }
    }
  }

  lemma {:induction false} AddedKeysCount(loaded: map<string, string>, cs: seq<Candidate>)
    ensures |Run(loaded, cs).archive.Keys - loaded.Keys| == |Run(loaded, cs).news|
  {
    var a := Run(loaded, cs).archive;
    RunGrows(loaded, cs);
    RunCounts(loaded, cs);
    assert a.Keys == (a.Keys - loaded.Keys) + loaded.Keys;
    assert (a.Keys - loaded.Keys) * loaded.Keys == {};
  }

  /** A run that announces nothing leaves the archive exactly as loaded. */
  lemma {:induction false} NoNewsNoChange(loaded: map<string, string>, cs: seq<Candidate>)
    requires Run(loaded, cs).news == []
    ensures Run(loaded, cs).archive == loaded
  {
    var a := Run(loaded, cs).archive;
    RunGrows(loaded, cs);
    RunCounts(loaded, cs);
    assert a.Keys - loaded.Keys == {} by {
      AddedKeysCount(loaded, cs);
    }
    forall k | k in a ensures k in loaded {
      assert k !in a.Keys - loaded.Keys;
    }
  }

  /** A key already in the archive is never announced and its stored date stays. */
  lemma {:induction false} RunAllSeen(loaded: map<string, string>, cs: seq<Candidate>)
    requires forall i :: 0 <= i < |cs| ==> cs[i].key in loaded
    ensures Run(loaded, cs) == State(loaded, [])
    decreases |cs|
  {
    if cs != [] {
      RunAllSeen(loaded, cs[..|cs| - 1]);
    }
  }

  /** Running again on the same listings with the archive just produced announces nothing. */
  lemma {:induction false} RunIdempotent(loaded: map<string, string>, cs: seq<Candidate>)
    ensures Run(Run(loaded, cs).archive, cs) == State(Run(loaded, cs).archive, [])
  {
    RunGrows(loaded, cs);
    var a := Run(loaded, cs).archive;
    forall i | 0 <= i < |cs| ensures cs[i].key in a {
      assert cs[i].key in KeysOf(cs);
    }
    RunAllSeen(a, cs);
  }

  /** The messages one site's scan gives when judged against the loaded archive alone. */
  function SiteNews(loaded: map<string, string>, scan: SiteScan): seq<string> {
    FreshMessages(loaded, SiteCandidates(scan.name, Reached(scan)))
  }

  /** What `news` gives for each site, in site order. */
  function PerSite(news: SiteScan -> seq<string>, sites: seq<SiteScan>): seq<seq<string>> {
    seq(|sites|, i requires 0 <= i < |sites| => news(sites[i]))
  }

  /** The parts put one after another, in order. */
  function Flatten(parts: seq<seq<string>>): seq<string>
    decreases |parts|
  {
    if parts == [] then [] else Flatten(parts[..|parts| - 1]) + parts[|parts| - 1]
  }

  /** The sites' messages, each site judged on its own, put one after another in site order. */
  function NewsBySite(loaded: map<string, string>, sites: seq<SiteScan>): seq<string> {
    Flatten(PerSite(scan => SiteNews(loaded, scan), sites))
  }

  function NamesOf(sites: seq<SiteScan>): set<string> {
    set i | 0 <= i < |sites| :: sites[i].name
  }

  /** Scans of registry sites, no site scanned twice. */
  predicate DistinctRegistrySites(sites: seq<SiteScan>) {
    && (forall i :: 0 <= i < |sites| ==> sites[i].name in SiteNames)
    && (forall i, j :: 0 <= i < j < |sites| ==> sites[i].name != sites[j].name)
  }

  lemma {:induction false} RegistryIsDistinct(sites: seq<SiteScan>)
    requires FollowsRegistry(sites)
    ensures DistinctRegistrySites(sites)
  {
  }

  /** A candidate of a registry site has a key that reads back as that site's name. */
  lemma {:induction false} SiteKeysNamed(name: string, cards: seq<Card>, c: Candidate)
    requires name in SiteNames && c in SiteCandidates(name, cards)
    ensures |c.key| > |name| + 3 && SplitKey(c.key) == Some((name, c.key[|name| + 1..]))
  {
    SiteCandidatesKeyed(name, cards);
    RegistryNamesDashFree(name);
    var t := c.key[|name| + 1..];
    assert c.key == Key(name, t);
    assert SplitKey(Key(name, t)) == Some((name, t));
  }

  /** Every candidate's key reads back as the name of the site it came from. */
  lemma {:induction false} CandidatesNamed(sites: seq<SiteScan>)
    requires forall i :: 0 <= i < |sites| ==> sites[i].name in SiteNames
    ensures forall c :: c in Candidates(sites) ==> SplitKey(c.key).Some? && SplitKey(c.key).value.0 in NamesOf(sites)
    decreases |sites|
  {
    if sites != [] {
      var init := sites[..|sites| - 1];
      var last := sites[|sites| - 1];
      var xs := Candidates(init);
      var ys := SiteCandidates(last.name, Reached(last));
      assert Candidates(sites) == xs + ys;
      CandidatesNamed(init);
      assert NamesOf(init) + {last.name} <= NamesOf(sites) by {
        forall i | 0 <= i < |init| ensures init[i].name in NamesOf(sites) {
          assert sites[i] == init[i];
        }
      }
      forall c: Candidate | c in xs + ys
        ensures SplitKey(c.key).Some? && SplitKey(c.key).value.0 in NamesOf(sites)
      {
        if c in ys {
          SiteKeysNamed(last.name, Reached(last), c);
        } else {
          assert c in xs;
        }
      }
    }
  }

  /** Candidates whose keys never meet are judged independently of each other. */
  lemma {:induction false} FreshMessagesDisjoint(loaded: map<string, string>, xs: seq<Candidate>, ys: seq<Candidate>)
    requires forall i, j :: 0 <= i < |xs| && 0 <= j < |ys| ==> xs[i].key != ys[j].key
    ensures FreshMessages(loaded, xs + ys) == FreshMessages(loaded, xs) + FreshMessages(loaded, ys)
    decreases |ys|
  {
    if ys == [] {
      assert xs + ys == xs;
    } else {
      var m := |ys| - 1;
      var init := ys[..m];
      forall i, j | 0 <= i < |xs| && 0 <= j < |init| ensures xs[i].key != init[j].key {
        assert init[j] == ys[j];
      }
      FreshMessagesDisjoint(loaded, xs, init);
      FirstFreshAfter(loaded, xs, ys, m);
      FreshMessagesSnoc(loaded, xs, ys);
    }
  }

  /** The inductive step: the last candidate of `ys` is judged the same behind `xs` as on its own. */
  lemma {:induction false} FreshMessagesSnoc(loaded: map<string, string>, xs: seq<Candidate>, ys: seq<Candidate>)
    requires ys != []
    requires FreshMessages(loaded, xs + ys[..|ys| - 1]) == FreshMessages(loaded, xs) + FreshMessages(loaded, ys[..|ys| - 1])
    requires FirstFresh(loaded, xs + ys, |xs| + |ys| - 1) == FirstFresh(loaded, ys, |ys| - 1)
    ensures FreshMessages(loaded, xs + ys) == FreshMessages(loaded, xs) + FreshMessages(loaded, ys)
  {
    var m := |ys| - 1;
    var init := ys[..m];
    var all := xs + ys;
    assert all[..|all| - 1] == xs + init;
    assert all[|all| - 1] == ys[m];
    var last := if FirstFresh(loaded, ys, m) then [ys[m].message] else [];
    var a, b := FreshMessages(loaded, xs), FreshMessages(loaded, init);
    assert FreshMessages(loaded, all) == (a + b) + last;
    assert FreshMessages(loaded, ys) == b + last;
  }

  /** Behind candidates with other keys, a candidate is first-fresh exactly when it is among its own. */
  lemma {:induction false} FirstFreshAfter(loaded: map<string, string>, xs: seq<Candidate>, ys: seq<Candidate>, m: nat)
    requires m < |ys|
    requires forall i, j :: 0 <= i < |xs| && 0 <= j < |ys| ==> xs[i].key != ys[j].key
    ensures FirstFresh(loaded, xs + ys, |xs| + m) <==> FirstFresh(loaded, ys, m)
  {
    var all, n := xs + ys, |xs| + m;
    assert all[n] == ys[m];
    if FirstFresh(loaded, ys, m) {
      forall j | 0 <= j < n ensures all[j].key != all[n].key {
        if j >= |xs| { assert all[j] == ys[j - |xs|]; }
      }
    }
    if FirstFresh(loaded, all, n) {
      forall j | 0 <= j < m ensures ys[j].key != ys[m].key {
        assert all[|xs| + j] == ys[j];
      }
    }
  }

  /** Keys of a site not scanned before never meet the keys of the earlier sites. */
  lemma {:induction false} KeysDisjoint(init: seq<SiteScan>, last: SiteScan, xs: seq<Candidate>, ys: seq<Candidate>)
    requires forall i :: 0 <= i < |init| ==> init[i].name in SiteNames
    requires last.name in SiteNames && last.name !in NamesOf(init)
    requires xs == Candidates(init) && ys == SiteCandidates(last.name, Reached(last))
    ensures forall i, j :: 0 <= i < |xs| && 0 <= j < |ys| ==> xs[i].key != ys[j].key
  {
    CandidatesNamed(init);
    forall x, y | x in xs && y in ys ensures x.key != y.key {
      NamedKeysDiffer(x, y, NamesOf(init), last.name, Reached(last));
    }
  }

  /** A key read back as one of some names differs from a key of a site outside them. */
  lemma {:induction false} NamedKeysDiffer(x: Candidate, y: Candidate, names: set<string>, name: string, cards: seq<Card>)
    requires SplitKey(x.key).Some? && SplitKey(x.key).value.0 in names
    requires name in SiteNames && name !in names && y in SiteCandidates(name, cards)
    ensures x.key != y.key
  {
    SiteKeysNamed(name, cards, y);
  }

  /** The last of distinct registry sites is not among the sites before it. */
  lemma {:induction false} LastNameNew(sites: seq<SiteScan>)
    requires DistinctRegistrySites(sites) && sites != []
    ensures sites[|sites| - 1].name !in NamesOf(sites[..|sites| - 1])
  {
    var init := sites[..|sites| - 1];
    forall i | 0 <= i < |init| ensures init[i].name != sites[|sites| - 1].name {
      assert init[i] == sites[i];
    }
  }

  /** A new site's messages follow the earlier sites' messages, untouched by them. */
  lemma {:induction false} FreshAppendSite(loaded: map<string, string>, init: seq<SiteScan>, last: SiteScan)
    requires forall i :: 0 <= i < |init| ==> init[i].name in SiteNames
    requires last.name in SiteNames && last.name !in NamesOf(init)
    ensures FreshMessages(loaded, Candidates(init) + SiteCandidates(last.name, Reached(last)))
      == FreshMessages(loaded, Candidates(init)) + SiteNews(loaded, last)
  {
    var xs, ys := Candidates(init), SiteCandidates(last.name, Reached(last));
    KeysDisjoint(init, last, xs, ys);
    FreshMessagesDisjoint(loaded, xs, ys);
  }

  lemma {:induction false} FreshBySite(loaded: map<string, string>, sites: seq<SiteScan>)
    requires DistinctRegistrySites(sites)
    ensures FreshMessages(loaded, Candidates(sites)) == NewsBySite(loaded, sites)
    decreases |sites|
  {
    if sites != [] {
      var init := sites[..|sites| - 1];
      var last := sites[|sites| - 1];
      FreshBySite(loaded, init);
      NewsBySiteSnoc(loaded, sites);
      LastNameNew(sites);
      FreshAppendSite(loaded, init, last);
    }
  }

  /**
   * Sites do not interfere: a run's messages are each site's messages, judged
   * against the loaded archive alone, one site after another.
   */
  lemma {:induction false} RunNewsBySite(loaded: map<string, string>, sites: seq<SiteScan>)
    requires DistinctRegistrySites(sites)
    ensures Run(loaded, Candidates(sites)).news == NewsBySite(loaded, sites)
  {
    RunNews(loaded, Candidates(sites));
    FreshBySite(loaded, sites);
  }

  lemma {:induction false} FlattenAppend(a: seq<seq<string>>, b: seq<seq<string>>)
    ensures Flatten(a + b) == Flatten(a) + Flatten(b)
    decreases |b|
  {
    if b == [] {
      assert a + b == a;
    } else {
      var all, init, last := a + b, b[..|b| - 1], b[|b| - 1];
      assert all[..|all| - 1] == a + init && all[|all| - 1] == last;
      FlattenAppend(a, init);
      assert Flatten(all) == (Flatten(a) + Flatten(init)) + last;
      assert Flatten(b) == Flatten(init) + last;
    }
  }

  lemma {:induction false} PerSiteAppend(news: SiteScan -> seq<string>, xs: seq<SiteScan>, ys: seq<SiteScan>)
    ensures PerSite(news, xs + ys) == PerSite(news, xs) + PerSite(news, ys)
  {
    var all, a, b := PerSite(news, xs + ys), PerSite(news, xs), PerSite(news, ys);
    forall i | 0 <= i < |all| ensures all[i] == (a + b)[i] {
      assert (xs + ys)[i] == if i < |xs| then xs[i] else ys[i - |xs|];
    }
  }

  lemma {:induction false} NewsBySiteAppend(loaded: map<string, string>, xs: seq<SiteScan>, ys: seq<SiteScan>)
    ensures NewsBySite(loaded, xs + ys) == NewsBySite(loaded, xs) + NewsBySite(loaded, ys)
  {
    var news := scan => SiteNews(loaded, scan);
    PerSiteAppend(news, xs, ys);
    FlattenAppend(PerSite(news, xs), PerSite(news, ys));
  }

  /** The last site's messages come after those of the sites before it. */
  lemma {:induction false} NewsBySiteSnoc(loaded: map<string, string>, sites: seq<SiteScan>)
    requires sites != []
    ensures NewsBySite(loaded, sites) == NewsBySite(loaded, sites[..|sites| - 1]) + SiteNews(loaded, sites[|sites| - 1])
  {
    var news := scan => SiteNews(loaded, scan);
    var p := PerSite(news, sites);
    assert p[..|p| - 1] == PerSite(news, sites[..|sites| - 1]);
  }

  /**
   * A site that raises, or raises at another card, changes only its own share
   * of the messages: every other site's messages stay the same and in place.
   */
  lemma {:induction false} FailureIsolated(loaded: map<string, string>, s1: seq<SiteScan>, s2: seq<SiteScan>, a: nat)
    requires FollowsRegistry(s1) && FollowsRegistry(s2)
    requires a < |s1|
    requires forall b :: 0 <= b < |s1| && b != a ==> s1[b] == s2[b]
    ensures Run(loaded, Candidates(s1)).news
      == NewsBySite(loaded, s1[..a]) + SiteNews(loaded, s1[a]) + NewsBySite(loaded, s1[a + 1..])
    ensures Run(loaded, Candidates(s2)).news
      == NewsBySite(loaded, s1[..a]) + SiteNews(loaded, s2[a]) + NewsBySite(loaded, s1[a + 1..])
  {
    assert s2[..a] == s1[..a] && s2[a + 1..] == s1[a + 1..];
    NewsAroundSite(loaded, s1, a);
    NewsAroundSite(loaded, s2, a);
  }

  lemma {:induction false} NewsAroundSite(loaded: map<string, string>, s: seq<SiteScan>, a: nat)
    requires FollowsRegistry(s) && a < |s|
    ensures Run(loaded, Candidates(s)).news == NewsBySite(loaded, s[..a]) + SiteNews(loaded, s[a]) + NewsBySite(loaded, s[a + 1..])
  {
    RegistryIsDistinct(s);
    RunNewsBySite(loaded, s);
    NewsBySiteSplit(loaded, s, a);
  }

  lemma {:induction false} NewsBySiteSplit(loaded: map<string, string>, s: seq<SiteScan>, a: nat)
    requires a < |s|
    ensures NewsBySite(loaded, s) == NewsBySite(loaded, s[..a]) + SiteNews(loaded, s[a]) + NewsBySite(loaded, s[a + 1..])
  {
    assert s == s[..a] + [s[a]] + s[a + 1..];
    NewsBySiteAppend(loaded, s[..a] + [s[a]], s[a + 1..]);
    NewsBySiteSnoc(loaded, s[..a + 1]);
    assert s[..a + 1] == s[..a] + [s[a]] && s[..a + 1][..a] == s[..a];
  }

  /** Messages judged on a prefix of the candidates are a prefix of those judged on all of them. */
  lemma {:induction false} FreshMessagesPrefix(loaded: map<string, string>, cs: seq<Candidate>, j: nat)
    requires j <= |cs|
    ensures FreshMessages(loaded, cs[..j]) <= FreshMessages(loaded, cs)
    decreases |cs|
  {
    if j < |cs| {
      var init := cs[..|cs| - 1];
      assert cs[..j] == init[..j];
      FreshMessagesPrefix(loaded, init, j);
    } else {
      assert cs[..j] == cs;
    }
  }

  /** A site that raised part-way announces a prefix of what its whole page would have announced. */
  lemma {:induction false} FailedSiteNewsPrefix(loaded: map<string, string>, scan: SiteScan)
    ensures SiteNews(loaded, scan) <= SiteNews(loaded, scan.(failsAt := None))
  {
    var all := SiteCandidates(scan.name, scan.cards);
    FailedSiteKeepsPrefix(scan);
    var part := SiteCandidates(scan.name, Reached(scan));
    assert part == all[..|part|];
    FreshMessagesPrefix(loaded, all, |part|);
  }

  lemma {:induction false} RunExtra(st: State, cs: seq<Candidate>, oc: Option<Candidate>)
    ensures RunFrom(st, cs + Extra(oc)) == if oc.Some? then Step(RunFrom(st, cs), oc.value) else RunFrom(st, cs)
  {
    if oc.Some? {
      RunSnoc(st, cs, oc.value);
    } else {
      assert cs + Extra(oc) == cs;
    }
  }

  lemma {:induction false} SiteCandidatesSnoc(site: string, cards: seq<Card>, j: nat)
    requires j < |cards|
    ensures SiteCandidates(site, cards[..j + 1]) == SiteCandidates(site, cards[..j]) + Extra(CardCandidate(site, cards[j]))
  {
    assert cards[..j + 1][..j] == cards[..j];
  }

  lemma {:induction false} CandidatesSnoc(sites: seq<SiteScan>, i: nat)
    requires i < |sites|
    ensures Candidates(sites[..i + 1]) == Candidates(sites[..i]) + SiteCandidates(sites[i].name, Reached(sites[i]))
  {
    assert sites[..i + 1][..i] == sites[..i];
  }

  /** A card that does not raise is handled, and so may be the one after it. */
  lemma {:induction false} ReachedNext(site: SiteScan, j: nat)
    requires j < |site.cards| && j <= |Reached(site)| && site.failsAt != Some(j)
    ensures j + 1 <= |Reached(site)|
  {
  }

  /** The card loop stops at the card that raised, or after the last card. */
  lemma {:induction false} ReachedEnd(site: SiteScan, j: nat)
    requires j <= |Reached(site)| && j <= |site.cards|
    requires j == |site.cards| || site.failsAt == Some(j)
    ensures site.cards[..j] == Reached(site)
  {
  }

  /**
   * The card loop for one site: each card reached until one raises is read; a
   * card with a valid title whose key is not yet archived is announced and
   * archived at once.
   */
  method ScanCards(site: SiteScan, archive0: map<string, string>, news0: seq<string>)
    returns (archive: map<string, string>, news: seq<string>)
    ensures State(archive, news) == RunFrom(State(archive0, news0), SiteCandidates(site.name, Reached(site)))
  {
    archive, news := archive0, news0;
    var j := 0;
    while j < |site.cards|
      invariant 0 <= j <= |Reached(site)|
      invariant State(archive, news) == RunFrom(State(archive0, news0), SiteCandidates(site.name, site.cards[..j]))
    {
      if site.failsAt == Some(j) {
        break;
      }
      ReachedNext(site, j);
      var card := site.cards[j];
      var title := NormalizeTitle(card.title);
      var date := NormalizeDate(card.date);
      if IsValidTitle(title) {
        var key := Key(site.name, title);
        if key !in archive {
          news := news + [Message(site.name, title, date)];
          archive := archive[key := date];
        }
      }
      SiteCandidatesSnoc(site.name, site.cards, j);
      RunExtra(State(archive0, news0), SiteCandidates(site.name, site.cards[..j]), CardCandidate(site.name, card));
      j := j + 1;
    }
    ReachedEnd(site, j);
  }

  /**
   * The site loop of one run, from the loaded archive and no messages: the
   * sites are scanned in order, each continuing from the state the previous
   * one left, a site that raised keeping what its earlier cards added.
   */
  method ScanSites(sites: seq<SiteScan>, loaded: map<string, string>)
    returns (archive: map<string, string>, news: seq<string>)
    ensures State(archive, news) == Run(loaded, Candidates(sites))
    ensures loaded.Keys <= archive.Keys && forall k :: k in loaded ==> archive[k] == loaded[k]
    ensures |archive| == |loaded| + |news|
  {
    archive, news := loaded, [];
    var i := 0;
    while i < |sites|
      invariant 0 <= i <= |sites|
      invariant State(archive, news) == Run(loaded, Candidates(sites[..i]))
    {
      archive, news := ScanCards(sites[i], archive, news);
      CandidatesSnoc(sites, i);
      RunFromAppend(State(loaded, []), Candidates(sites[..i]), SiteCandidates(sites[i].name, Reached(sites[i])));
      i := i + 1;
    }
    assert sites[..i] == sites;
    RunGrows(loaded, Candidates(sites));
    RunCounts(loaded, Candidates(sites));
  }
}
