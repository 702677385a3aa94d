/**
 * Title and description of a fetched page, found by scanning its HTML text with
 * `/<title>(.*?)<\/title>/` and `/<meta name="description" content="(.*?)"/`.
 * Each yields the capture of the leftmost match, shortest capture first; `.` does not cross
 * a line terminator; no match, or an empty capture, gives the empty string.
 */
module Preview {
  import opened Wrappers
  import opened Text

  const TitleOpen := "<title>"
  const TitleClose := "</title>"
  const DescriptionOpen := "<meta name=\"description\" content=\""
  const DescriptionClose := "\""

  /** `open(.*?)close` matches from `start`, its capture ending where `close` begins, at `end`. */
  ghost predicate Matches(s: string, open: string, close: string, start: nat, end: nat)
  {
    && start + |open| <= end <= |s|
    && open <= s[start..]
    && NoLineTerminator(s[start + |open|..end])
    && close <= s[end..]
  }

  /** The match a backtracking engine reports: leftmost start, then the shortest capture. */
  ghost predicate FirstMatch(s: string, open: string, close: string, start: nat, end: nat)
  {
    && Matches(s, open, close, start, end)
    && (forall st: nat, e: nat :: st < start ==> !Matches(s, open, close, st, e))
    && (forall e: nat :: e < end ==> !Matches(s, open, close, start, e))
  }

  /** The position at which the lazy `(.*?)` that began at `j` stops, if `close` is reachable. */
  function CloseFrom(s: string, close: string, j: nat): (r: Option<nat>)
    requires j <= |s|
    ensures r.Some? ==> && j <= r.value <= |s| && close <= s[r.value..]
                        && NoLineTerminator(s[j..r.value])
                        && forall p :: j <= p < r.value ==> !(close <= s[p..])
    ensures r.None? ==> forall p :: j <= p <= |s| && NoLineTerminator(s[j..p]) ==> !(close <= s[p..])
    decreases |s| - j
  {
    if close <= s[j..] then Some(j)
    else if j == |s| || IsLineTerminator(s[j]) then None
    else
      var r := CloseFrom(s, close, j + 1);
      assert forall p :: j < p <= |s| ==> s[j..p] == [s[j]] + s[j + 1..p];
      r
  }

  /** A match span: the capture is `s[start + |open|..end]`. */
  datatype Span = Span(start: nat, end: nat)

  /** `s.match(/open(.*?)close/)` searching from position `i` on. */
  function Scan(s: string, open: string, close: string, i: nat): (r: Option<Span>)
    requires i <= |s|
    ensures r.Some? ==> && i <= r.value.start
                        && Matches(s, open, close, r.value.start, r.value.end)
                        && (forall st: nat, e: nat :: i <= st < r.value.start ==> !Matches(s, open, close, st, e))
                        && (forall e: nat :: e < r.value.end ==> !Matches(s, open, close, r.value.start, e))
    ensures r.None? ==> forall st: nat, e: nat :: i <= st ==> !Matches(s, open, close, st, e)
    decreases |s| - i
  {
    var m := if i + |open| <= |s| && open <= s[i..] then CloseFrom(s, close, i + |open|) else None;
    if m.Some? then Some(Span(i, m.value))
    else if i == |s| then None
    else Scan(s, open, close, i + 1)
  }

  /** `s.match(/open(.*?)close/)?.[1] || ''` */
  function Extract(s: string, open: string, close: string): (r: string)
    ensures NoLineTerminator(r)
    ensures (forall st: nat, e: nat :: !Matches(s, open, close, st, e)) ==> r == ""
    ensures forall st: nat, e: nat :: FirstMatch(s, open, close, st, e) ==> r == s[st + |open|..e]
  {
    match Scan(s, open, close, 0)
    case Some(sp) =>
      assert forall st: nat, e: nat :: FirstMatch(s, open, close, st, e) ==> st == sp.start && e == sp.end;
      s[sp.start + |open|..sp.end]
    case None => ""
  }

  function Title(html: string): (r: string)
    ensures NoLineTerminator(r)
  {
    Extract(html, TitleOpen, TitleClose)
  }

  function Description(html: string): (r: string)
    ensures NoLineTerminator(r)
  {
    Extract(html, DescriptionOpen, DescriptionClose)
  }

  /**
   * What `getLinkPreviewWithRedirect` resolves with once the page text is in: its title and
   * description (the `images` list is always empty).
   */
  datatype LinkPreview = LinkPreview(title: string, description: string)

  /** The helper's successful path, for a page whose text is `html`. */
  function PreviewOf(html: string): (r: LinkPreview)
    ensures NoLineTerminator(r.title) && NoLineTerminator(r.description)
  {
    LinkPreview(Title(html), Description(html))
  }

  /** `close` does not begin anywhere inside `t`, not even running on into a `close` after it. */
  ghost predicate ClosesOnlyAtEnd(t: string, close: string) {
    forall p :: 0 <= p < |t| ==> !(close <= (t + close)[p..])
  }

  /**
   * A page that begins with `open`, then a capture free of line terminators in which `close`
   * does not begin, then `close`, yields that capture, whatever follows.
   */
  lemma {:induction false} ExtractLeadingMatch(open: string, close: string, t: string, rest: string)
    requires NoLineTerminator(t) && ClosesOnlyAtEnd(t, close)
    ensures Extract(open + t + close + rest, open, close) == t
  {
    var s := open + t + close + rest;
    var end := |open| + |t|;
    assert s[..|open|] == open;
    assert s[|open|..end] == t;
    assert s[end..][..|close|] == close;
    forall e: nat | e < end ensures !Matches(s, open, close, 0, e) {
      if |open| <= e {
        var q := (t + close)[e - |open|..];
        assert s[e..] == q + rest;
        assert !(close <= q);
        assert |close| <= |q| && s[e..][..|close|] == q[..|close|];
      }
    }
    assert FirstMatch(s, open, close, 0, end);
  }

  /** `<title>t</title>` at the head of a page gives `t`, for a one-line `t` in which `</title>` does not begin. */
  lemma TitleOfPage(t: string, rest: string)
    requires NoLineTerminator(t) && ClosesOnlyAtEnd(t, TitleClose)
    ensures Title(TitleOpen + t + TitleClose + rest) == t
  {
    ExtractLeadingMatch(TitleOpen, TitleClose, t, rest);
  }

  /** The description meta tag at the head of a page gives its content, for a one-line content without `"`. */
  lemma DescriptionOfPage(d: string, rest: string)
    requires '"' !in d && NoLineTerminator(d)
    ensures Description(DescriptionOpen + d + DescriptionClose + rest) == d
  {
    assert ClosesOnlyAtEnd(d, DescriptionClose) by {
      forall p | 0 <= p < |d| ensures !(DescriptionClose <= (d + DescriptionClose)[p..]) {
        assert (d + DescriptionClose)[p..][0] == d[p];
      }
    }
    ExtractLeadingMatch(DescriptionOpen, DescriptionClose, d, rest);
  }

  /** A page without an opening `<title>` anywhere has the empty title. */
  lemma NoTitleTag(html: string)
    requires forall i :: 0 <= i <= |html| ==> !(TitleOpen <= html[i..])
    ensures Title(html) == ""
  {
  }
}
