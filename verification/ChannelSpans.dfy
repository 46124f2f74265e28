/** Finding #channel and &channel mentions in message text, away from its addresses. */
module ChannelSpans {
  import opened Text
  import L = LinkSpans

  type Span = L.Span

  predicate InUrl(urls: seq<Span>, p: int) {
    exists k | 0 <= k < |urls| :: urls[k].start <= p < urls[k].end
  }

  predicate IsPrefix(c: char) {
    c == '#' || c == '&'
  }

  /** The character before makes this no mention. */
  predicate Blocked(text: string, start: nat)
    requires start < |text|
  {
    start > 0 &&
    var prev := text[start - 1];
    IsAlnum(prev) || prev == '_' || prev == '/' || prev == text[start]
  }

  predicate IsNameChar(c: char) {
    IsAlnum(c) || c == '-' || c == '_' || c == '.'
  }

  function FindPrefix(text: string, i: nat): (k: nat)
    requires i <= |text|
    ensures i <= k <= |text| && (k < |text| ==> IsPrefix(text[k]))
    ensures forall p | i <= p < k :: !IsPrefix(text[p])
    decreases |text| - i
  {
    if i == |text| || IsPrefix(text[i]) then i else FindPrefix(text, i + 1)
  }

  function NameEnd(text: string, i: nat): (k: nat)
    requires i <= |text|
    ensures i <= k <= |text| && (k < |text| ==> !IsNameChar(text[k]))
    ensures forall p | i <= p < k :: IsNameChar(text[p])
    decreases |text| - i
  {
    if i == |text| || !IsNameChar(text[i]) then i else NameEnd(text, i + 1)
  }

  /** The end of the mention that would start here, without the sentence's punctuation. */
  function MentionEnd(text: string, start: nat): (k: nat)
    requires start < |text|
    ensures start + 1 <= k <= |text|
  {
    L.StripTrailers(text, start + 1, NameEnd(text, start + 1))
  }

  /** A mention could start here, addresses aside. */
  predicate Candidate(text: string, start: int) {
    0 <= start < |text| && IsPrefix(text[start]) && !Blocked(text, start) && MentionEnd(text, start) > start + 1
  }

  function Mention(text: string, start: nat): Span
    requires start < |text|
  {
    L.Span(start, MentionEnd(text, start), text[start..MentionEnd(text, start)])
  }

  /** What one look from `i` finds, and where to look next. */
  datatype Look = Look(found: Option<Span>, next: nat)

  function LookFrom(text: string, urls: seq<Span>, i: nat): (r: Look)
    requires i < |text|
    ensures i < r.next <= |text|
  {
    if InUrl(urls, i) then Look(None, i + 1)
    else
      var start := FindPrefix(text, i);
      if start == |text| then Look(None, |text|)
      else if Blocked(text, start) then Look(None, start + 1)
      else if MentionEnd(text, start) > start + 1 then Look(Some(Mention(text, start)), MentionEnd(text, start))
      else Look(None, start + 1)
  }

  /** The mentions found from `i` on. */
  function Mentions(text: string, urls: seq<Span>, i: nat): seq<Span>
    requires i <= |text|
    decreases |text| - i
  {
    if i == |text| then []
    else
      var look := LookFrom(text, urls, i);
      (if look.found.Some? then [look.found.value] else []) + Mentions(text, urls, look.next)
  }

  /** Cut from the text: a prefix, then a name that is not empty and does not end in a dot. */
  ghost predicate MentionOk(text: string, s: Span) {
    && Candidate(text, s.start) && s == Mention(text, s.start)
    && s.start + 1 < s.end <= |text| && s.text == text[s.start..s.end]
    && (forall p | s.start < p < s.end :: IsNameChar(text[p]))
    && text[s.end - 1] != '.'
    && (forall p | s.end <= p < NameEnd(text, s.start + 1) :: text[p] == '.')
  }

  lemma CandidateIsOk(text: string, s: Span)
    requires Candidate(text, s.start) && s == Mention(text, s.start)
    ensures MentionOk(text, s)
  {
  }

  /** Mentions from `i` on, none overlapping the next. */
  ghost predicate MentionsFrom(text: string, i: nat, spans: seq<Span>) {
    && (forall m | m in spans :: i <= m.start && MentionOk(text, m))
    && InOrder(spans)
  }

  /** No span reaches into a later one. */
  predicate InOrder(spans: seq<Span>) {
    forall j, k | 0 <= j < k < |spans| :: spans[j].end <= spans[k].start
  }

  lemma MoreInOrder(s: Span, rest: seq<Span>)
    requires InOrder(rest) && forall m | m in rest :: s.end <= m.start
    ensures InOrder([s] + rest)
  {
    var all := [s] + rest;
    forall j, k | 0 <= j < k < |all| ensures all[j].end <= all[k].start {
      assert all[k] == rest[k - 1] && rest[k - 1] in rest;
      assert j > 0 ==> all[j] == rest[j - 1];
    }
  }

  lemma MoreMentions(text: string, i: nat, s: Span, rest: seq<Span>)
    requires i <= s.start && MentionOk(text, s) && MentionsFrom(text, s.end, rest)
    ensures MentionsFrom(text, i, [s] + rest)
  {
    assert s.start <= s.end;
    MoreInOrder(s, rest);
  }

  lemma LookIsOk(text: string, urls: seq<Span>, i: nat)
    requires i < |text|
    ensures var look := LookFrom(text, urls, i);
      look.found.Some? ==>
        i <= look.found.value.start && look.found.value.end == look.next && MentionOk(text, look.found.value)
  {
    var start := FindPrefix(text, i);
    if start < |text| && Candidate(text, start) { CandidateIsOk(text, Mention(text, start)); }
  }

  lemma {:induction false} MentionsOk(text: string, urls: seq<Span>, i: nat)
    requires i <= |text|
    ensures MentionsFrom(text, i, Mentions(text, urls, i))
    decreases |text| - i
  {
    if i < |text| {
      var look := LookFrom(text, urls, i);
      var rest := Mentions(text, urls, look.next);
      MentionsOk(text, urls, look.next);
      LookIsOk(text, urls, i);
      if look.found.Some? {
        MoreMentions(text, i, look.found.value, rest);
      } else {
        LaterMentions(text, i, look.next, rest);
      }
    }
  }

  lemma LaterMentions(text: string, i: nat, later: nat, spans: seq<Span>)
    requires i <= later && MentionsFrom(text, later, spans)
    ensures MentionsFrom(text, i, spans)
  {
  }

  lemma PrefixIs(c: char)
    ensures IsPrefix(c) <==> c in "#&"
  {
    assert "#&" == ['#', '&'];
  }

  /** A name holds letters, digits and these. */
  lemma NameCharIs(c: char)
    ensures IsNameChar(c) <==> IsAlnum(c) || c in "-_."
  {
    assert "-_." == ['-', '_', '.'];
  }

  /** Nothing reads as a mention behind a letter, a digit, one of these, or its own prefix. */
  lemma BlockedIs(text: string, start: nat)
    requires start < |text|
    ensures Blocked(text, start) <==>
      start > 0 && (IsAlnum(text[start - 1]) || text[start - 1] in "_/" || text[start - 1] == text[start])
  {
    assert "_/" == ['_', '/'];
  }

  /** Only dots stand between `end` and `stop`, where the name ends. */
  predicate OnlyDots(text: string, end: nat, stop: nat) {
    && end <= stop <= |text|
    && (stop == |text| || !(IsAlnum(text[stop]) || text[stop] in "-_."))
    && forall p | end <= p < stop :: text[p] == '.'
  }

  lemma EndIsDotted(text: string, s: Span)
    requires MentionOk(text, s)
    ensures OnlyDots(text, s.end, NameEnd(text, s.start + 1))
  {
    var stop := NameEnd(text, s.start + 1);
    if stop < |text| { NameCharIs(text[stop]); }
  }

  /**
   A mention is a `#` or `&` that is not behind a word, and the longest name behind it without the dots at
   its end.
   */
  lemma MentionReads(text: string, urls: seq<Span>, s: Span)
    requires s in Mentions(text, urls, 0)
    ensures s.start + 1 < s.end <= |text| && s.text == text[s.start..s.end]
    ensures text[s.start] in "#&" && text[s.end - 1] != '.'
    ensures s.start > 0 ==> var c := text[s.start - 1]; !IsAlnum(c) && c !in "_/" && c != text[s.start]
    ensures forall p | s.start < p < s.end :: IsAlnum(text[p]) || text[p] in "-_."
    ensures exists stop :: OnlyDots(text, s.end, stop)
  {
    MentionStarts(text, urls, 0, s);
    BlockedIs(text, s.start);
    PrefixIs(text[s.start]);
    forall p | s.start < p < s.end ensures IsAlnum(text[p]) || text[p] in "-_." {
      NameCharIs(text[p]);
    }
    EndIsDotted(text, s);
  }

  // ---- which candidates are found --------------------------------------------------------

  ghost predicate Found(text: string, urls: seq<Span>, i: nat, p: int)
    requires i <= |text|
  {
    exists s :: s in Mentions(text, urls, i) && s.start == p
  }

  /** No prefix stands in `q..p`. */
  predicate Clear(text: string, q: nat, p: nat) {
    forall k | q <= k < p && k < |text| :: !IsPrefix(text[k])
  }

  /** The search at `q` is outside addresses and found mentions, and looks ahead to `p`. */
  ghost predicate SeenFrom(text: string, urls: seq<Span>, i: nat, q: nat, p: nat)
    requires i <= |text|
  {
    && i <= q <= p && !InUrl(urls, q) && Clear(text, q, p)
    && forall s | s in Mentions(text, urls, i) :: !(s.start < q < s.end)
  }

  ghost predicate Seen(text: string, urls: seq<Span>, i: nat, p: nat)
    requires i <= |text|
  {
    exists q :: SeenFrom(text, urls, i, q, p)
  }

  lemma MentionsAre(text: string, urls: seq<Span>, i: nat, s: Span)
    requires i < |text|
    ensures var look := LookFrom(text, urls, i);
      s in Mentions(text, urls, i) <==>
        (look.found.Some? && s == look.found.value) || s in Mentions(text, urls, look.next)
  {
  }

  lemma MentionStarts(text: string, urls: seq<Span>, i: nat, s: Span)
    requires i <= |text| && s in Mentions(text, urls, i)
    ensures i <= s.start && MentionOk(text, s)
  {
    MentionsOk(text, urls, i);
  }

  lemma FoundStep(text: string, urls: seq<Span>, i: nat, p: nat)
    requires i < |text|
    ensures var look := LookFrom(text, urls, i);
      Found(text, urls, i, p) <==> (look.found.Some? && look.found.value.start == p) || Found(text, urls, look.next, p)
  {
    var look := LookFrom(text, urls, i);
    if s :| s in Mentions(text, urls, i) && s.start == p {
      MentionsAre(text, urls, i, s);
    }
    if look.found.Some? && look.found.value.start == p {
      MentionsAre(text, urls, i, look.found.value);
    }
    if s :| s in Mentions(text, urls, look.next) && s.start == p {
      MentionsAre(text, urls, i, s);
    }
  }

  /** A look that passes `p` by leaves what can be seen of it unchanged. */
  lemma SeenStep(text: string, urls: seq<Span>, i: nat, p: nat)
    requires i < |text| && p < |text| && LookFrom(text, urls, i).next <= p
    ensures Seen(text, urls, i, p) <==> Seen(text, urls, LookFrom(text, urls, i).next, p)
  {
    var look := LookFrom(text, urls, i);
    if q: nat :| SeenFrom(text, urls, i, q, p) {
      assert look.next <= q by {
        if look.found.Some? { MentionsAre(text, urls, i, look.found.value); }
      }
      forall s | s in Mentions(text, urls, look.next) ensures !(s.start < q < s.end) {
        MentionsAre(text, urls, i, s);
      }
      assert SeenFrom(text, urls, look.next, q, p);
    }
    if q: nat :| SeenFrom(text, urls, look.next, q, p) {
      LookIsOk(text, urls, i);
      forall s | s in Mentions(text, urls, i) ensures !(s.start < q < s.end) {
        MentionsAre(text, urls, i, s);
      }
      assert SeenFrom(text, urls, i, q, p);
    }
  }

  /** The first prefix ahead of a place outside addresses is seen. */
  lemma FirstPrefixIsSeen(text: string, urls: seq<Span>, i: nat)
    requires i <= |text| && !InUrl(urls, i)
    ensures Seen(text, urls, i, FindPrefix(text, i))
  {
    forall s | s in Mentions(text, urls, i) ensures !(s.start < i < s.end) {
      MentionStarts(text, urls, i, s);
    }
    assert SeenFrom(text, urls, i, i, FindPrefix(text, i));
  }

  /**
   A candidate becomes a mention exactly when the search sees it: looking ahead from a place outside
   all addresses and mentions, with no other prefix in between. Such a place may lie before an
   address and the candidate inside it.
   */
  lemma {:induction false} FoundIff(text: string, urls: seq<Span>, i: nat, p: nat)
    requires i <= p && i <= |text|
    ensures Found(text, urls, i, p) <==> Candidate(text, p) && Seen(text, urls, i, p)
    decreases |text| - i
  {
    if Found(text, urls, i, p) {
      var s :| s in Mentions(text, urls, i) && s.start == p;
      MentionStarts(text, urls, i, s);
    }
    if Candidate(text, p) {
      var look := LookFrom(text, urls, i);
      FoundStep(text, urls, i, p);
      if look.next <= p {
        LookIsOk(text, urls, i);
        SeenStep(text, urls, i, p);
        FoundIff(text, urls, look.next, p);
      } else if InUrl(urls, i) {
        OnlySeenOutside(text, urls, i);
        NotFoundBefore(text, urls, look.next, p);
      } else {
        CandidateInLook(text, urls, i, p);
        FirstPrefixIsSeen(text, urls, i);
      }
    }
  }

  lemma NotFoundBefore(text: string, urls: seq<Span>, i: nat, p: nat)
    requires p < i <= |text|
    ensures !Found(text, urls, i, p)
  {
    MentionsOk(text, urls, i);
  }

  lemma OnlySeenOutside(text: string, urls: seq<Span>, i: nat)
    requires i <= |text| && InUrl(urls, i)
    ensures !Seen(text, urls, i, i)
  {
  }

  /** A candidate that one look reaches is what it finds. */
  lemma CandidateInLook(text: string, urls: seq<Span>, i: nat, p: nat)
    requires i <= p && i < |text| && !InUrl(urls, i) && Candidate(text, p) && p < LookFrom(text, urls, i).next
    ensures p == FindPrefix(text, i) && LookFrom(text, urls, i).found == Some(Mention(text, p))
  {
    MentionHasOnePrefix(text, FindPrefix(text, i), p);
  }

  lemma MentionHasOnePrefix(text: string, start: nat, p: nat)
    requires start < |text| && p < |text|
    ensures start < p < MentionEnd(text, start) ==> !IsPrefix(text[p])
  {
  }

  /** The search from the start sees `p` from `q`. */
  lemma SeenIsFound(text: string, urls: seq<Span>, q: nat, p: nat) returns (m: Span)
    requires Candidate(text, p) && SeenFrom(text, urls, 0, q, p)
    ensures m in Mentions(text, urls, 0) && m == Mention(text, p)
  {
    FoundIff(text, urls, 0, p);
    m :| m in Mentions(text, urls, 0) && m.start == p;
    MentionStarts(text, urls, 0, m);
  }

  /** From just before `u` the search sees the first prefix from `u` on. */
  lemma SeenFromBefore(text: string, urls: seq<Span>, u: nat)
    requires 0 < u <= |text| && !InUrl(urls, u - 1) && !IsPrefix(text[u - 1])
    requires forall s | s in Mentions(text, urls, 0) :: !(s.start < u - 1 < s.end)
    ensures SeenFrom(text, urls, 0, u - 1, FindPrefix(text, u))
  {
  }

  /** Every candidate outside the addresses is a mention. */
  lemma OutsideIsFound(text: string, urls: seq<Span>, p: nat) returns (m: Span)
    requires Candidate(text, p) && !InUrl(urls, p)
    ensures m in Mentions(text, urls, 0) && m == Mention(text, p)
  {
    forall s | s in Mentions(text, urls, 0) ensures !(s.start < p < s.end) {
      MentionStarts(text, urls, 0, s);
      MentionHasOnePrefix(text, s.start, p);
    }
    m := SeenIsFound(text, urls, p, p);
  }
}
