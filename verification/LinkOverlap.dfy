/** Addresses and channel mentions together: when they overlap, and the list the client shows. */
module LinkOverlap {
  import opened Text
  import L = LinkSpans
  import C = ChannelSpans

  predicate Overlap(a: L.Span, b: L.Span) {
    a.start < b.end && b.start < a.end
  }

  function MentionsOf(text: string): seq<L.Span> {
    C.Mentions(text, L.UrlSpans(text), 0)
  }

  ghost predicate Apart(text: string) {
    forall m, u | m in MentionsOf(text) && u in L.UrlSpans(text) :: !Overlap(m, u)
  }

  /** No mention could run on into the address. */
  predicate NotRunInto(text: string, u: L.Span) {
    forall s | 0 <= s < u.start && s < |text| && C.Candidate(text, s) :: C.MentionEnd(text, s) <= u.start
  }

  /** The first prefix inside the address starts no mention, or the address follows a prefix or starts the text. */
  predicate Quiet(text: string, u: L.Span) {
    u.start <= |text| &&
    var p := C.FindPrefix(text, u.start);
    p < u.end && C.Candidate(text, p) ==> u.start == 0 || C.IsPrefix(text[u.start - 1])
  }

  // ---- addresses as spans ----------------------------------------------------------------

  lemma UrlFacts(text: string, u: L.Span)
    requires u in L.UrlSpans(text)
    ensures L.UrlSpanOk(text, u) && text[u.start] == 'h'
  {
    L.StretchesAreOk(text, 0);
    L.LinksOk(text, 0, L.Stretches(text, 0));
    assert u.text[0] == 'h' by {
      assert L.HTTP[0] == 'h' && L.HTTPS[0] == 'h';
      assert StartsWith(u.text, L.HTTP) ==> u.text[..7][0] == 'h';
      assert StartsWith(u.text, L.HTTPS) ==> u.text[..8][0] == 'h';
    }
  }

  lemma UrlsAreSeparate(text: string, u: L.Span, v: L.Span)
    requires u in L.UrlSpans(text) && v in L.UrlSpans(text)
    ensures u == v || u.end < v.start || v.end < u.start
  {
    L.StretchesAreOk(text, 0);
    L.LinksOk(text, 0, L.Stretches(text, 0));
    var urls := L.UrlSpans(text);
    var j :| 0 <= j < |urls| && urls[j] == u;
    var k :| 0 <= k < |urls| && urls[k] == v;
    assert j < k ==> urls[j].end < urls[k].start;
  }

  lemma InsideUrl(text: string, u: L.Span, p: nat)
    requires u in L.UrlSpans(text) && u.start <= p < u.end
    ensures C.InUrl(L.UrlSpans(text), p)
  {
    var urls := L.UrlSpans(text);
    var k :| 0 <= k < |urls| && urls[k] == u;
  }

  // ---- if the conditions hold, nothing overlaps ------------------------------------------

  lemma OverlapBreaksConditions(text: string, m: L.Span, u: L.Span)
    requires m in MentionsOf(text) && u in L.UrlSpans(text) && Overlap(m, u)
    ensures (!NotRunInto(text, u) || !Quiet(text, u))
  {
    UrlFacts(text, u);
    C.MentionStarts(text, L.UrlSpans(text), 0, m);
    if u.start <= m.start {
      assert C.Found(text, L.UrlSpans(text), 0, m.start);
      C.FoundIff(text, L.UrlSpans(text), 0, m.start);
      var q: nat :| C.SeenFrom(text, L.UrlSpans(text), 0, q, m.start);
      if u.start <= q { InsideUrl(text, u, q); }
      SeenIntoIsLoud(text, u, q, m.start);
    }
  }

  /** A candidate inside an address, seen from before it, is the first prefix there and not behind another. */
  lemma SeenIntoIsLoud(text: string, u: L.Span, q: nat, p: nat)
    requires q < u.start <= p < u.end && C.Candidate(text, p) && C.Clear(text, q, p)
    ensures !Quiet(text, u)
  {
    FirstPrefixIs(text, u.start, p);
  }

  // ---- if nothing overlaps, the conditions hold ------------------------------------------

  /** A candidate that runs into an address is not itself inside an address. */
  lemma RunInIsOutside(text: string, u: L.Span, s: nat)
    requires u in L.UrlSpans(text) && s < u.start && s < |text|
    requires C.Candidate(text, s) && u.start < C.MentionEnd(text, s)
    ensures !C.InUrl(L.UrlSpans(text), s)
  {
    var urls := L.UrlSpans(text);
    UrlFacts(text, u);
    if k :| 0 <= k < |urls| && urls[k].start <= s < urls[k].end {
      var v := urls[k];
      UrlFacts(text, v);
      UrlsAreSeparate(text, u, v);
      var stop := L.FindDelimiter(text, v.start);
      NameHasNoDelimiter(text, s, stop);
    }
  }

  /** A delimiter cannot stand inside a mention. */
  lemma NameHasNoDelimiter(text: string, s: nat, p: nat)
    requires s < |text| && p < |text|
    ensures s < p < C.MentionEnd(text, s) ==> !L.IsDelimiter(text[p])
  {
  }

  lemma ApartMeansNotRunInto(text: string, u: L.Span)
    requires Apart(text) && u in L.UrlSpans(text)
    ensures NotRunInto(text, u)
  {
    var urls := L.UrlSpans(text);
    forall s: nat | s < u.start && s < |text| && C.Candidate(text, s)
      ensures C.MentionEnd(text, s) <= u.start
    {
      if u.start < C.MentionEnd(text, s) {
        RunInIsOutside(text, u, s);
        UrlFacts(text, u);
        var m := C.OutsideIsFound(text, urls, s);
        assert Overlap(m, u);
      }
    }
  }

  lemma BeforeIsOutside(text: string, u: L.Span)
    requires u in L.UrlSpans(text) && u.start > 0
    ensures !C.InUrl(L.UrlSpans(text), u.start - 1)
  {
    var urls := L.UrlSpans(text);
    UrlFacts(text, u);
    if k :| 0 <= k < |urls| && urls[k].start <= u.start - 1 < urls[k].end {
      UrlsAreSeparate(text, u, urls[k]);
    }
  }

  /** A mention that covers the place before a letter covers the letter too. */
  lemma MentionRunsOn(text: string, m: L.Span, p: nat)
    requires C.MentionOk(text, m) && 0 < p < |text| && text[p] == 'h'
    ensures m.start < p - 1 < m.end ==> p < m.end
  {
    var stop := C.NameEnd(text, m.start + 1);
    assert stop == p ==> !C.IsNameChar(text[p]);
  }

  /** Nothing found covers the place before an address. */
  lemma BeforeIsUnmentioned(text: string, u: L.Span, m: L.Span)
    requires Apart(text) && u in L.UrlSpans(text) && m in MentionsOf(text) && u.start > 0
    ensures !(m.start < u.start - 1 < m.end)
  {
    UrlFacts(text, u);
    C.MentionStarts(text, L.UrlSpans(text), 0, m);
    MentionRunsOn(text, m, u.start);
    assert !Overlap(m, u);
  }

  /** An address that is not quiet has a mention in it, if nothing covers the place before it. */
  lemma LoudIsFound(text: string, u: L.Span)
    requires u in L.UrlSpans(text) && 0 < u.start < |text| && !Quiet(text, u)
    requires !C.InUrl(L.UrlSpans(text), u.start - 1)
    requires forall m | m in MentionsOf(text) :: !(m.start < u.start - 1 < m.end)
    ensures exists m | m in MentionsOf(text) :: Overlap(m, u)
  {
    C.SeenFromBefore(text, L.UrlSpans(text), u.start);
    var m := C.SeenIsFound(text, L.UrlSpans(text), u.start - 1, C.FindPrefix(text, u.start));
    assert Overlap(m, u);
  }

  lemma ApartMeansQuiet(text: string, u: L.Span)
    requires Apart(text) && u in L.UrlSpans(text)
    ensures Quiet(text, u)
  {
    UrlFacts(text, u);
    if !Quiet(text, u) {
      BeforeIsOutside(text, u);
      forall m | m in MentionsOf(text) ensures !(m.start < u.start - 1 < m.end) {
        BeforeIsUnmentioned(text, u, m);
      }
      LoudIsFound(text, u);
    }
  }

  /**
   Mentions and addresses of a text are disjoint exactly when, for each address, no mention could run
   on into it and no prefix character inside it is one the search looks ahead to.
   */
  lemma ApartIff(text: string)
    ensures Apart(text) <==> forall u | u in L.UrlSpans(text) :: NotRunInto(text, u) && Quiet(text, u)
  {
    if Apart(text) {
      forall u | u in L.UrlSpans(text) ensures NotRunInto(text, u) && Quiet(text, u) {
        ApartMeansNotRunInto(text, u);
        ApartMeansQuiet(text, u);
      }
    } else {
      var m, u :| m in MentionsOf(text) && u in L.UrlSpans(text) && Overlap(m, u);
      OverlapBreaksConditions(text, m, u);
    }
  }

  /** A fragment `#b` at the end of a text, not right behind a word. */
  lemma LastTwoAreACandidate(text: string, p: nat)
    requires 0 < p && |text| == p + 2 && text[p] == '#' && text[p + 1] == 'b' && text[p - 1] == '?'
    ensures C.Candidate(text, p)
  {
    assert C.NameEnd(text, p + 1) == p + 2;
  }

  lemma FirstPrefixIs(text: string, i: nat, p: nat)
    requires i <= p < |text| && C.IsPrefix(text[p]) && forall k | i <= k < p :: !C.IsPrefix(text[k])
    ensures C.FindPrefix(text, i) == p
  {
  }

  /** An address that ends in such a fragment is not apart from the mention in it. */
  lemma FragmentOverlaps(text: string, u: L.Span, p: nat)
    requires 0 < u.start < p < u.end && |text| == p + 2 && text[p] == '#' && text[p + 1] == 'b' && text[p - 1] == '?'
    requires u in L.UrlSpans(text) && !C.IsPrefix(text[u.start - 1])
    requires forall k | u.start <= k < p :: !C.IsPrefix(text[k])
    ensures !Apart(text)
  {
    LastTwoAreACandidate(text, p);
    FirstPrefixIs(text, u.start, p);
    if Apart(text) { ApartMeansQuiet(text, u); }
  }

  lemma SampleChars(text: string)
    requires text == " https://x/?#b"
    ensures |text| == 14 && text[0] == ' ' && text[12] == '#' && text[13] == 'b' && text[11] == '?'
    ensures forall k | 1 <= k < 12 :: !C.IsPrefix(text[k])
    ensures forall k | 1 <= k < 14 :: !L.IsDelimiter(text[k])
  {
  }

  /** The fragment of an address in running text is shown as a mention as well. */
  lemma FragmentBecomesAMention(text: string)
    requires text == " https://x/?#b"
    ensures !Apart(text)
  {
    SampleChars(text);
    var u := OneUrl(text);
    FragmentOverlaps(text, u, 12);
  }

  lemma OneUrl(text: string) returns (u: L.Span)
    requires text == " https://x/?#b"
    ensures u in L.UrlSpans(text) && u.start == 1 && u.end == 14
  {
    assert text[1..9] == L.HTTPS;
    assert L.SchemeAt(text, 1, L.HTTPS);
    if L.SchemeAt(text, 0, L.HTTPS) { L.SchemeChar(text, 0, L.HTTPS, 0); }
    assert L.NextUrl(text, 0) == Some(1);
    SampleChars(text);
    assert L.FindDelimiter(text, 1) == 14;
    var s := L.Stretch(1, 14);
    var all := L.Stretches(text, 0);
    assert all[0] == s;
    L.StretchesAreOk(text, 0);
    assert text[1..][..8] == L.HTTPS;
    L.LinkOfIff(text, s);
    u := L.LinkOf(text, s)[0];
    L.StretchHasLink(text, 0, all, 0, u);
  }

  // ---- the list shown --------------------------------------------------------------------

  datatype Link = Url(span: L.Span) | Channel(span: L.Span)

  function UrlLinks(spans: seq<L.Span>): seq<Link> {
    seq(|spans|, i requires 0 <= i < |spans| => Url(spans[i]))
  }

  function ChannelLinks(spans: seq<L.Span>): seq<Link> {
    seq(|spans|, i requires 0 <= i < |spans| => Channel(spans[i]))
  }

  /** Stable insertion from the back: behind everything that starts no later. */
  function Insert(links: seq<Link>, x: Link): seq<Link> {
    if links == [] || links[|links| - 1].span.start <= x.span.start then links + [x]
    else Insert(links[..|links| - 1], x) + [links[|links| - 1]]
  }

  /** Stable sort by start. */
  function SortByStart(links: seq<Link>): seq<Link> {
    if links == [] then [] else Insert(SortByStart(links[..|links| - 1]), links[|links| - 1])
  }

  function MessageLinks(text: string): seq<Link> {
    SortByStart(UrlLinks(L.UrlSpans(text)) + ChannelLinks(MentionsOf(text)))
  }

  ghost predicate Sorted(links: seq<Link>) {
    forall i, j | 0 <= i < j < |links| :: links[i].span.start <= links[j].span.start
  }

  lemma {:induction false} InsertAdds(links: seq<Link>, x: Link)
    ensures multiset(Insert(links, x)) == multiset(links) + multiset{x}
    decreases |links|
  {
    if links != [] {
      var init, last := links[..|links| - 1], links[|links| - 1];
      assert links == init + [last];
      InsertAdds(init, x);
    }
  }

  ghost predicate NoLater(links: seq<Link>, bound: nat) {
    forall i | 0 <= i < |links| :: links[i].span.start <= bound
  }

  lemma SortedMore(links: seq<Link>, x: Link)
    requires Sorted(links) && NoLater(links, x.span.start)
    ensures Sorted(links + [x])
  {
  }

  lemma {:induction false} InsertSorted(links: seq<Link>, x: Link, bound: nat)
    requires Sorted(links) && NoLater(links, bound) && x.span.start <= bound
    ensures Sorted(Insert(links, x)) && NoLater(Insert(links, x), bound)
    decreases |links|
  {
    if links != [] && links[|links| - 1].span.start > x.span.start {
      var init, last := links[..|links| - 1], links[|links| - 1];
      InsertSorted(init, x, last.span.start);
      SortedMore(Insert(init, x), last);
    } else {
      SortedMore(links, x);
    }
  }

  function Latest(links: seq<Link>): (bound: nat)
    ensures forall i | 0 <= i < |links| :: links[i].span.start <= bound
  {
    if links == [] then 0
    else
      var rest, s := Latest(links[..|links| - 1]), links[|links| - 1].span.start;
      if s > rest then s else rest
  }

  lemma {:induction false} SortFacts(links: seq<Link>)
    ensures multiset(SortByStart(links)) == multiset(links) && Sorted(SortByStart(links))
    decreases |links|
  {
    if links != [] {
      var init, last := links[..|links| - 1], links[|links| - 1];
      assert links == init + [last];
      SortFacts(init);
      InsertAdds(SortByStart(init), last);
      InsertSorted(SortByStart(init), last, Latest(SortByStart(init) + [last]));
    }
  }

  /** The list shown is ordered and holds exactly the addresses and the mentions, each as often as found. */
  lemma MessageLinksAreBoth(text: string)
    ensures Sorted(MessageLinks(text))
    ensures multiset(MessageLinks(text))
            == multiset(UrlLinks(L.UrlSpans(text))) + multiset(ChannelLinks(MentionsOf(text)))
  {
    SortFacts(UrlLinks(L.UrlSpans(text)) + ChannelLinks(MentionsOf(text)));
  }
}
