/**
 * Delivery: the new-listing messages are sent in consecutive groups of at
 * most ten, each under one header, and the archive is written only when
 * something was new.
 */
module Dispatch {
  import opened Wrappers
  import opened Listing
  import opened Dedup
  import opened Text

  /** At most this many listings go into one outbound message. */
  const GroupSize: nat := 10

  /** Between the header and the first block, and between two blocks. */
  const Separator: string := "\n\n"

  /** The header: the "all active listings" variant on a first run, the "new listings" one otherwise. */
  function Header(firstRun: bool): (r: string)
    ensures |r| > 0 && '\n' !in r
    ensures r[0] == '\U{2705}' <==> firstRun
  {
    if firstRun then "\U{2705} **AKT\U{130}F T\U{DC}M \U{130}LANLAR**"
    else "\U{1F514} **YEN\U{130} \U{130}LANLAR BULUNDU!**"
  }

  /** The text sent for one group. */
  function BatchText(header: string, group: seq<string>): string {
    header + Separator + Join(group, Separator)
  }

  /** The slice `xs[i:i+GroupSize]`, clamped at the end of `xs` as a Python slice is. */
  function Chunk(xs: seq<string>, i: nat): seq<string>
    requires i <= |xs|
  {
    xs[i..if i + GroupSize < |xs| then i + GroupSize else |xs|]
  }

  /** The groups: the first ten messages, then the groups of the rest. */
  function Groups(xs: seq<string>): seq<seq<string>>
    decreases |xs|
  {
    if xs == [] then []
    else if |xs| <= GroupSize then [xs]
    else [xs[..GroupSize]] + Groups(xs[GroupSize..])
  }

  /** The body of each group's text: its messages joined by blank lines. */
  function Bodies(gs: seq<seq<string>>): (r: seq<string>)
    ensures |r| == |gs|
  {
    if gs == [] then [] else [Join(gs[0], Separator)] + Bodies(gs[1..])
  }

  /**
   * The groups partition the messages in order: each is non-empty and holds at
   * most ten, they are ceil(n/10) in number, and put back together they give
   * the messages again.
   */
  lemma {:induction false} GroupsPartition(xs: seq<string>)
    ensures forall k :: 0 <= k < |Groups(xs)| ==> 0 < |Groups(xs)[k]| <= GroupSize
    ensures |Groups(xs)| == (|xs| + GroupSize - 1) / GroupSize
    ensures Flatten(Groups(xs)) == xs
    decreases |xs|
  {
    if |xs| > GroupSize {
      var head, rest := xs[..GroupSize], xs[GroupSize..];
      GroupsPartition(rest);
      var gs := Groups(xs);
      assert gs == [head] + Groups(rest) && gs[1..] == Groups(rest);
      FlattenAppend([head], Groups(rest));
      assert [head][..0] == [];
      assert xs == head + rest;
    } else if xs != [] {
      assert Groups(xs)[1..] == [];
      assert [xs][..0] == [];
    }
  }

  /**
   * Splitting into groups loses no text: the groups' bodies, joined by a blank
   * line, read exactly as all the messages joined by a blank line.
   */
  lemma {:induction false} BodiesRejoin(xs: seq<string>)
    ensures Join(Bodies(Groups(xs)), Separator) == Join(xs, Separator)
    decreases |xs|
  {
    if |xs| > GroupSize {
      var head, rest := xs[..GroupSize], xs[GroupSize..];
      BodiesRejoin(rest);
      var tail := Bodies(Groups(rest));
      assert Bodies(Groups(xs)) == [Join(head, Separator)] + tail;
      assert tail != [];
      assert ([Join(head, Separator)] + tail)[1..] == tail;
      assert xs == head + rest;
      JoinAppend(head, rest, Separator);
    }
  }

  /** Group `k` is the slice the stepped loop takes at `i = 10 * k`. */
  lemma {:induction false} GroupsAt(xs: seq<string>, k: nat)
    requires k * GroupSize < |xs|
    ensures k < |Groups(xs)|
    ensures Groups(xs)[k] == Chunk(xs, k * GroupSize)
    decreases |xs|
  {
    if |xs| > GroupSize {
      var rest := xs[GroupSize..];
      if k > 0 {
        GroupsAt(rest, k - 1);
        var i := (k - 1) * GroupSize;
        assert i + GroupSize == k * GroupSize;
        var end := if i + GroupSize < |rest| then i + GroupSize else |rest|;
        assert Chunk(rest, i) == rest[i..end];
        assert Chunk(xs, k * GroupSize) == xs[i + GroupSize..end + GroupSize];
        assert rest[i..end] == xs[i + GroupSize..end + GroupSize];
        assert Groups(xs)[k] == Groups(rest)[k - 1];
      }
    }
  }

  /**
   * The batch loop: for `i = 0, 10, 20, …` below the number of messages, it
   * sends the header, a blank line and the slice `news[i:i+10]` joined by
   * blank lines; the texts sent are those of the groups, in order.
   */
  method SendBatches(header: string, news: seq<string>) returns (sent: seq<string>)
    ensures |sent| == |Groups(news)| == (|news| + GroupSize - 1) / GroupSize
    ensures forall k :: 0 <= k < |sent| ==> sent[k] == BatchText(header, Groups(news)[k])
  {
    sent := [];
    var i := 0;
    while i < |news|
      invariant i == |sent| * GroupSize
      invariant i < |news| + GroupSize
      invariant forall k :: 0 <= k < |sent| ==> sent[k] == BatchText(header, Chunk(news, k * GroupSize))
    {
      var group := Join(news[i..if i + GroupSize < |news| then i + GroupSize else |news|], Separator);
      sent := sent + [header + Separator + group];
      i := i + GroupSize;
    }
    GroupsPartition(news);
    forall k | 0 <= k < |sent| ensures sent[k] == BatchText(header, Groups(news)[k]) {
      GroupsAt(news, k);
    }
  }

  /**
   * One run after the sites have been scanned: with the archive as loaded and
   * the scans of the registry's sites, it sends the batches and says what
   * archive is written, `None` when nothing was new and the file is left alone.
   */
  method RunOnce(sites: seq<SiteScan>, loaded: map<string, string>)
    returns (sent: seq<string>, written: Option<map<string, string>>)
    requires FollowsRegistry(sites)
    ensures var r := Run(loaded, Candidates(sites));
      && (written.None? <==> r.news == [])
      && (sent == [] <==> r.news == [])
      && (written.Some? ==> written.value == r.archive)
      && (written.None? ==> r.archive == loaded)
      && (written.Some? ==> loaded.Keys <= written.value.Keys && forall k :: k in loaded ==> written.value[k] == loaded[k])
      && |sent| == |Groups(r.news)|
      && (forall k :: 0 <= k < |sent| ==> sent[k] == BatchText(Header(|loaded| == 0), Groups(r.news)[k]))
  {
    var firstRun := |loaded| == 0;
    var archive, news := ScanSites(sites, loaded);
    if news != [] {
      var header := Header(firstRun);
      sent := SendBatches(header, news);
      written := Some(archive);
    } else {
      NoNewsNoChange(loaded, Candidates(sites));
      sent, written := [], None;
    }
  }

  /**
   * Two runs in a row over unchanged pages, the second starting from the
   * archive file as the first one left it: the second sends nothing and
   * writes nothing.
   */
  method RunTwice(sites: seq<SiteScan>, loaded: map<string, string>)
    returns (sent1: seq<string>, written1: Option<map<string, string>>,
             sent2: seq<string>, written2: Option<map<string, string>>)
    requires FollowsRegistry(sites)
    ensures sent2 == [] && written2.None?
  {
    sent1, written1 := RunOnce(sites, loaded);
    var next := if written1.Some? then written1.value else loaded;
    RunIdempotent(loaded, Candidates(sites));
    sent2, written2 := RunOnce(sites, next);
  }
}
