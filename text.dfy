/**
 * The text operations the bot applies to what it reads from a listing card:
 * Python's `str.strip()`, `str.replace("\n", " ")` and `sep.join(items)`.
 */
module Text {

  /** The 29 code points for which Python's `str.isspace()` holds. */
  const PythonWhitespace: set<char> := {
    '\t', '\n', '\U{B}', '\U{C}', '\r', '\U{1C}', '\U{1D}', '\U{1E}', '\U{1F}', ' ',
    '\U{85}', '\U{A0}', '\U{1680}', '\U{2000}', '\U{2001}', '\U{2002}', '\U{2003}',
    '\U{2004}', '\U{2005}', '\U{2006}', '\U{2007}', '\U{2008}', '\U{2009}', '\U{200A}',
    '\U{2028}', '\U{2029}', '\U{202F}', '\U{205F}', '\U{3000}'
  }

  /** Whitespace as `str.strip()` removes it, tested by code-point ranges. */
  predicate IsSpace(c: char) {
    || ('\t' <= c <= '\r')
    || ('\U{1C}' <= c <= ' ')
    || c == '\U{85}'
    || c == '\U{A0}'
    || c == '\U{1680}'
    || ('\U{2000}' <= c <= '\U{200A}')
    || c == '\U{2028}'
    || c == '\U{2029}'
    || c == '\U{202F}'
    || c == '\U{205F}'
    || c == '\U{3000}'
  }

  /** The ranges tested by `IsSpace` hold exactly Python's whitespace code points. */
  lemma {:induction false} IsSpaceExactly(c: char)
    ensures IsSpace(c) <==> c in PythonWhitespace
  {
  }

  predicate AllSpace(s: string) {
    forall i :: 0 <= i < |s| ==> IsSpace(s[i])
  }

  /** `s.lstrip()`: the suffix of `s` left after dropping its leading whitespace. */
  function TrimLeft(s: string): (r: string)
    ensures |r| <= |s| && r == s[|s| - |r|..]
    ensures forall i :: 0 <= i < |s| - |r| ==> IsSpace(s[i])
    ensures |r| > 0 ==> !IsSpace(r[0])
  {
    if s != [] && IsSpace(s[0]) then TrimLeft(s[1..]) else s
  }

  /** `s.rstrip()`: the prefix of `s` left after dropping its trailing whitespace. */
  function TrimRight(s: string): (r: string)
    ensures |r| <= |s| && r == s[..|r|]
    ensures forall i :: |r| <= i < |s| ==> IsSpace(s[i])
    ensures |r| > 0 ==> !IsSpace(r[|r| - 1])
  {
    if s != [] && IsSpace(s[|s| - 1]) then TrimRight(s[..|s| - 1]) else s
  }

  /** `s` is `r` with only whitespace before it (the first `i` characters) and after it. */
  predicate PaddedBy(s: string, r: string, i: nat) {
    i + |r| <= |s| && r == s[i..i + |r|] && AllSpace(s[..i]) && AllSpace(s[i + |r|..])
  }

  /**
   * `s.strip()`: the slice of `s` left once its leading and trailing whitespace
   * is cut off; it neither starts nor ends with whitespace.
   */
  function Strip(s: string): (r: string)
    ensures |r| <= |s|
    ensures |r| > 0 ==> !IsSpace(r[0]) && !IsSpace(r[|r| - 1])
    ensures exists i :: PaddedBy(s, r, i)
  {
    StripEnds(s);
    StripSlice(s);
    TrimRight(TrimLeft(s))
  }

  lemma {:induction false} StripEnds(s: string)
    ensures var r := TrimRight(TrimLeft(s));
      |r| > 0 ==> !IsSpace(r[0]) && !IsSpace(r[|r| - 1])
  {
    var t := TrimLeft(s);
    var r := TrimRight(t);
    if |r| > 0 {
      assert r[0] == t[0];
    }
  }

  lemma {:induction false} StripSlice(s: string)
    ensures PaddedBy(s, TrimRight(TrimLeft(s)), |s| - |TrimLeft(s)|)
  {
    var t := TrimLeft(s);
    PaddedAround(s, t, TrimRight(t), |s| - |t|);
  }

  /** Whitespace cut from the front of `s` and then from the back of what is left pads the result. */
  lemma {:induction false} PaddedAround(s: string, t: string, r: string, i: nat)
    requires i <= |s| && t == s[i..] && forall k :: 0 <= k < i ==> IsSpace(s[k])
    requires |r| <= |t| && r == t[..|r|] && forall k :: |r| <= k < |t| ==> IsSpace(t[k])
    ensures PaddedBy(s, r, i)
  {
    assert r == s[i..i + |r|];
    forall k | i + |r| <= k < |s| ensures IsSpace(s[k]) {
      assert s[k] == t[k - i];
    }
    SliceAllSpace(s, 0, i);
    SliceAllSpace(s, i + |r|, |s|);
    assert s[..i] == s[0..i] && s[i + |r|..] == s[i + |r|..|s|];
  }

  lemma {:induction false} SliceAllSpace(s: string, lo: nat, hi: nat)
    requires lo <= hi <= |s|
    requires forall k :: lo <= k < hi ==> IsSpace(s[k])
    ensures AllSpace(s[lo..hi])
  {
    forall j | 0 <= j < hi - lo ensures IsSpace(s[lo..hi][j]) {
      assert s[lo..hi][j] == s[lo + j];
    }
  }

  lemma {:induction false} TrimLeftPadding(ws: string, t: string)
    requires AllSpace(ws)
    ensures TrimLeft(ws + t) == TrimLeft(t)
  {
    if ws == [] {
      assert ws + t == t;
    } else {
      assert (ws + t)[1..] == ws[1..] + t;
      TrimLeftPadding(ws[1..], t);
    }
  }

  lemma {:induction false} TrimRightPadding(t: string, ws: string)
    requires AllSpace(ws)
    ensures TrimRight(t + ws) == TrimRight(t)
  {
    if ws == [] {
      assert t + ws == t;
    } else {
      var n := |ws| - 1;
      assert (t + ws)[..|t + ws| - 1] == t + ws[..n];
      TrimRightPadding(t, ws[..n]);
    }
  }

  /** Text after the first non-space character is kept by `lstrip`, whatever follows. */
  lemma {:induction false} TrimLeftAppend(t: string, u: string)
    requires |TrimLeft(t)| > 0
    ensures TrimLeft(t + u) == TrimLeft(t) + u
  {
    assert (t + u)[0] == t[0];
    if IsSpace(t[0]) {
      assert (t + u)[1..] == t[1..] + u;
      TrimLeftAppend(t[1..], u);
    }
  }

  /**
   * Whitespace padding on either side does not change the stripped text; this
   * is what makes two titles differing only in surrounding whitespace equal.
   */
  lemma {:induction false} StripPadding(left: string, t: string, right: string)
    requires AllSpace(left) && AllSpace(right)
    ensures Strip(left + t + right) == Strip(t)
  {
    assert left + t + right == left + (t + right);
    TrimLeftPadding(left, t + right);
    if |TrimLeft(t)| == 0 {
      AllSpaceAppend(t, right);
      TrimLeftAllSpace(t + right);
    } else {
      TrimLeftAppend(t, right);
      TrimRightPadding(TrimLeft(t), right);
    }
  }

  lemma {:induction false} AllSpaceAppend(t: string, u: string)
    requires |TrimLeft(t)| == 0 && AllSpace(u)
    ensures AllSpace(t + u)
  {
    assert t[..|t|] == t;
  }

  lemma {:induction false} TrimLeftAllSpace(s: string)
    requires AllSpace(s)
    ensures |TrimLeft(s)| == 0
  {
  }

  /** `s.replace("\n", " ")`: every newline becomes a space, nothing else changes. */
  function ReplaceNewlines(s: string): (r: string)
    ensures |r| == |s|
    ensures forall i :: 0 <= i < |s| ==> r[i] == (if s[i] == '\n' then ' ' else s[i])
  {
    if s == [] then [] else [if s[0] == '\n' then ' ' else s[0]] + ReplaceNewlines(s[1..])
  }

  /** Turning newlines into spaces keeps a stripped text's first and last characters non-space. */
  lemma {:induction false} ReplaceNewlinesStripped(t: string)
    requires |t| > 0 ==> !IsSpace(t[0]) && !IsSpace(t[|t| - 1])
    ensures var r := ReplaceNewlines(t); |r| > 0 ==> !IsSpace(r[0]) && !IsSpace(r[|r| - 1])
  {
  }

  /** `sep.join(items)`: the items in order, the first at the front, the last at the end. */
  function Join(items: seq<string>, sep: string): (r: string)
  {
    if items == [] then []
    else if |items| == 1 then items[0]
    else items[0] + sep + Join(items[1..], sep)
  }

  /** A joined text is empty for no items, and otherwise starts with the first item and ends with the last. */
  lemma {:induction false} JoinEnds(items: seq<string>, sep: string)
    ensures items == [] ==> Join(items, sep) == []
    ensures items != [] ==> items[0] <= Join(items, sep)
    ensures items != [] ==> var r, last := Join(items, sep), items[|items| - 1];
      |last| <= |r| && r[|r| - |last|..] == last
    decreases |items|
  {
    if |items| > 1 {
      JoinEnds(items[1..], sep);
      assert items[1..][|items| - 2] == items[|items| - 1];
    }
  }

  /** Joining two non-empty runs of items is joining each and putting one separator between. */
  lemma {:induction false} JoinAppend(xs: seq<string>, ys: seq<string>, sep: string)
    requires xs != [] && ys != []
    ensures Join(xs + ys, sep) == Join(xs, sep) + sep + Join(ys, sep)
  {
    var all := xs + ys;
    assert all[0] == xs[0];
    if |xs| == 1 {
      assert all[1..] == ys;
    } else {
      var j := Join(xs[1..], sep);
      assert all[1..] == xs[1..] + ys;
      assert Join(all, sep) == xs[0] + sep + Join(xs[1..] + ys, sep);
      JoinAppend(xs[1..], ys, sep);
      assert Join(xs, sep) == xs[0] + sep + j;
      assert xs[0] + sep + (j + sep + Join(ys, sep)) == (xs[0] + sep + j) + sep + Join(ys, sep);
    }
  }
}
