/** Finding links in message text. Positions count characters. */
module LinkSpans {
  import opened Text

  datatype Span = Span(start: nat, end: nat, text: string)

  // ---- addresses -------------------------------------------------------------------------

  const HTTPS := "https://"
  const HTTP := "http://"

  predicate SchemeAt(text: string, p: nat, scheme: string) {
    p + |scheme| <= |text| && EqIgnoreCase(text[p..p + |scheme|], scheme)
  }

  /** The first place from `i` on where the scheme stands, in any case. */
  function FindScheme(text: string, i: nat, scheme: string): (r: Option<nat>)
    ensures r.None? ==> forall p | i <= p :: !SchemeAt(text, p, scheme)
    ensures r.Some? ==> i <= r.value && SchemeAt(text, r.value, scheme)
    ensures r.Some? ==> forall p | i <= p < r.value :: !SchemeAt(text, p, scheme)
    decreases |text| - i
  {
    if i + |scheme| > |text| then None
    else if SchemeAt(text, i, scheme) then Some(i)
    else FindScheme(text, i + 1, scheme)
  }

  /** Where the next address starts: a secure one anywhere ahead comes before a plain one. */
  function NextUrl(text: string, i: nat): Option<nat> {
    var secure := FindScheme(text, i, HTTPS);
    if secure.Some? then secure else FindScheme(text, i, HTTP)
  }

  predicate IsDelimiter(c: char) {
    IsSpace(c) || c == '<' || c == '>' || c == '"' || c == '\'' || c == '`'
  }

  function FindDelimiter(text: string, i: nat): (k: nat)
    requires i <= |text|
    ensures i <= k <= |text| && (k < |text| ==> IsDelimiter(text[k]))
    ensures forall p | i <= p < k :: !IsDelimiter(text[p])
    decreases |text| - i
  {
    if i == |text| || IsDelimiter(text[i]) then i else FindDelimiter(text, i + 1)
  }

  predicate IsTrailer(c: char) {
    c == '.' || c == ',' || c == ';' || c == ')' || c == ']' || c == '}' || c == '!' || c == '?' || c == ':'
  }

  /** The end of `text[start..end]` without the punctuation behind it. */
  function StripTrailers(text: string, start: nat, end: nat): (k: nat)
    requires start <= end <= |text|
    ensures start <= k <= end && (k > start ==> !IsTrailer(text[k - 1]))
    ensures forall p | k <= p < end :: IsTrailer(text[p])
  {
    if end > start && IsTrailer(text[end - 1]) then StripTrailers(text, start, end - 1) else end
  }

  /** A stretch of text taken as one address. */
  datatype Stretch = Stretch(start: nat, stop: nat)

  /** All stretches from `i` on. */
  function Stretches(text: string, i: nat): seq<Stretch>
    requires i <= |text|
    decreases |text| - i
  {
    var next := NextUrl(text, i);
    if next.None? then []
    else
      SchemeHasNoDelimiter(text, next.value);
      var stop := FindDelimiter(text, next.value);
      [Stretch(next.value, stop)] + Stretches(text, stop)
  }

  lemma SchemeChar(text: string, p: nat, scheme: string, k: nat)
    requires SchemeAt(text, p, scheme) && k < |scheme|
    ensures AsciiLowerChar(text[p + k]) == AsciiLowerChar(scheme[k])
  {
    assert AsciiLower(text[p..p + |scheme|])[k] == AsciiLower(scheme)[k];
  }

  /** A scheme is at least seven characters and none of them ends an address. */
  lemma SchemeHasNoDelimiter(text: string, p: nat)
    requires SchemeAt(text, p, HTTPS) || SchemeAt(text, p, HTTP)
    ensures p + 7 <= |text| && FindDelimiter(text, p) >= p + 7 && !IsTrailer(text[p + 6])
  {
    var scheme := if SchemeAt(text, p, HTTPS) then HTTPS else HTTP;
    SchemeChar(text, p, scheme, 6);
    var d := FindDelimiter(text, p);
    if d < p + 7 {
      SchemeChar(text, p, scheme, d - p);
      SchemeLetters(scheme, d - p);
    }
  }

  lemma SchemeLetters(scheme: string, k: nat)
    requires (scheme == HTTPS || scheme == HTTP) && k < 7
    ensures scheme[k] == 'h' || scheme[k] == 't' || scheme[k] == 'p'
            || scheme[k] == 's' || scheme[k] == ':' || scheme[k] == '/'
  {
    assert scheme[0] == 'h' && scheme[1] == 't' && scheme[2] == 't' && scheme[3] == 'p' && scheme[6] == '/';
  }

  /** The link of a stretch; an address whose scheme is not in lower case is dropped. */
  function LinkOf(text: string, s: Stretch): seq<Span>
    requires s.start <= s.stop <= |text|
  {
    var end := StripTrailers(text, s.start, s.stop);
    var url := text[s.start..end];
    if StartsWith(url, HTTP) || StartsWith(url, HTTPS) then [Span(s.start, end, url)] else []
  }

  function Links(text: string, stretches: seq<Stretch>): seq<Span>
    requires forall k | 0 <= k < |stretches| :: stretches[k].start <= stretches[k].stop <= |text|
  {
    if stretches == [] then []
    else LinkOf(text, stretches[0]) + Links(text, stretches[1..])
  }

  /** Long enough for a scheme, and ending at the next delimiter. */
  ghost predicate StretchOk(text: string, s: Stretch) {
    && s.start + 7 <= s.stop <= |text| && s.stop == FindDelimiter(text, s.start)
    && (SchemeAt(text, s.start, HTTPS) || SchemeAt(text, s.start, HTTP))
  }

  /** Stretches from `i` on that do not touch. */
  ghost predicate StretchesOk(text: string, i: nat, stretches: seq<Stretch>) {
    && (forall k | 0 <= k < |stretches| :: i <= stretches[k].start && StretchOk(text, stretches[k]))
    && (forall j, k | 0 <= j < k < |stretches| :: stretches[j].stop < stretches[k].start)
  }

  lemma {:induction false} StretchesAreOk(text: string, i: nat)
    requires i <= |text|
    ensures StretchesOk(text, i, Stretches(text, i))
    decreases |text| - i
  {
    var next := NextUrl(text, i);
    if next.Some? {
      SchemeHasNoDelimiter(text, next.value);
      var stop := FindDelimiter(text, next.value);
      var rest := Stretches(text, stop);
      StretchesAreOk(text, stop);
      forall k | 0 <= k < |rest| ensures stop < rest[k].start {
        SchemeHasNoDelimiter(text, rest[k].start);
      }
      var all := Stretches(text, i);
      assert forall k | 0 < k < |all| :: all[k] == rest[k - 1];
    }
  }

  /** All address links of a text. */
  function UrlSpans(text: string): seq<Span> {
    StretchesAreOk(text, 0);
    Links(text, Stretches(text, 0))
  }

  /** A link that reads as cut from the text, and stops before trailing punctuation and the next delimiter. */
  ghost predicate UrlSpanOk(text: string, s: Span) {
    && s.start + 7 <= s.end <= |text| && s.text == text[s.start..s.end]
    && (StartsWith(s.text, HTTP) || StartsWith(s.text, HTTPS))
    && (forall p | s.start <= p < s.end :: !IsDelimiter(text[p]))
    && !IsTrailer(text[s.end - 1])
    && (forall p | s.end <= p < FindDelimiter(text, s.start) :: IsTrailer(text[p]))
  }

  ghost predicate Separate(spans: seq<Span>) {
    forall j, k | 0 <= j < k < |spans| :: spans[j].end < spans[k].start
  }

  lemma SlicePrefix(text: string, a: nat, b: nat, prefix: string)
    requires a + |prefix| <= b <= |text|
    ensures StartsWith(text[a..b], prefix) <==> StartsWith(text[a..], prefix)
  {
    assert text[a..b][..|prefix|] == text[a..][..|prefix|];
  }

  lemma SecureIsLong(text: string, s: Stretch)
    requires StretchOk(text, s) && StartsWith(text[s.start..], HTTPS)
    ensures StripTrailers(text, s.start, s.stop) >= s.start + 8
  {
    var rest := text[s.start..];
    assert rest[..8][7] == HTTPS[7];
    assert text[s.start + 7] == '/';
    SchemeHasNoDelimiter(text, s.start);
  }

  /** A stretch is linked exactly when its scheme is in lower case. */
  lemma LinkOfIff(text: string, s: Stretch)
    requires StretchOk(text, s)
    ensures LinkOf(text, s) != [] <==> StartsWith(text[s.start..], HTTP) || StartsWith(text[s.start..], HTTPS)
  {
    SchemeHasNoDelimiter(text, s.start);
    var end := StripTrailers(text, s.start, s.stop);
    SlicePrefix(text, s.start, end, HTTP);
    if StartsWith(text[s.start..], HTTPS) { SecureIsLong(text, s); }
    if end >= s.start + 8 { SlicePrefix(text, s.start, end, HTTPS); }
  }

  lemma LinkOfIsOk(text: string, s: Stretch)
    requires StretchOk(text, s)
    ensures LinkOf(text, s) != [] ==> UrlSpanOk(text, LinkOf(text, s)[0]) && LinkOf(text, s)[0].end <= s.stop
  {
    SchemeHasNoDelimiter(text, s.start);
  }

  /** The links of separate stretches are well formed and separate. */
  lemma {:induction false} LinksOk(text: string, i: nat, stretches: seq<Stretch>)
    requires StretchesOk(text, i, stretches)
    ensures var spans := Links(text, stretches);
      && (forall k | 0 <= k < |spans| :: i <= spans[k].start && UrlSpanOk(text, spans[k]))
      && Separate(spans)
    decreases |stretches|
  {
    if stretches != [] {
      var s, rest := stretches[0], stretches[1..];
      LinksOk(text, s.stop + 1, rest);
      LinkOfIsOk(text, s);
      var first, others, spans := LinkOf(text, s), Links(text, rest), Links(text, stretches);
      if first == [] {
        assert spans == others;
      } else {
        assert spans == [first[0]] + others;
        SeparateMore(first[0], others);
      }
    }
  }

  lemma SeparateMore(s: Span, others: seq<Span>)
    requires Separate(others) && forall k | 0 <= k < |others| :: s.end < others[k].start
    ensures Separate([s] + others)
  {
  }

  /** Every link is that of one stretch. */
  lemma {:induction false} LinkHasStretch(text: string, i: nat, stretches: seq<Stretch>, sp: Span) returns (k: nat)
    requires StretchesOk(text, i, stretches) && sp in Links(text, stretches)
    ensures k < |stretches| && sp in LinkOf(text, stretches[k])
    decreases |stretches|
  {
    k := 0;
    if sp !in LinkOf(text, stretches[0]) {
      k := LinkHasStretch(text, i, stretches[1..], sp);
      k := k + 1;
    }
  }

  lemma RestIsOk(text: string, i: nat, stretches: seq<Stretch>)
    requires stretches != [] && StretchesOk(text, i, stretches)
    ensures StretchesOk(text, i, stretches[1..])
  {
  }

  lemma InEither(a: seq<Span>, b: seq<Span>, sp: Span)
    ensures sp in a + b <==> sp in a || sp in b
  {
  }

  /** No stretch's link is missing. */
  lemma {:induction false} StretchHasLink(text: string, i: nat, stretches: seq<Stretch>, k: nat, sp: Span)
    requires StretchesOk(text, i, stretches) && k < |stretches| && sp in LinkOf(text, stretches[k])
    ensures sp in Links(text, stretches)
    decreases |stretches|
  {
    var rest := stretches[1..];
    if k > 0 {
      assert rest[k - 1] == stretches[k];
      RestIsOk(text, i, stretches);
      StretchHasLink(text, i, rest, k - 1, sp);
    }
    InEither(LinkOf(text, stretches[0]), Links(text, rest), sp);
  }

  // ---- how a link reads ------------------------------------------------------------------

  const BRACKETS := "<>\"'`"
  const PUNCTUATION := ".,;)]}!?:"

  /** What ends an address: white space, angle brackets and quotes. */
  lemma DelimiterIs(c: char)
    ensures IsDelimiter(c) <==> IsSpace(c) || c in BRACKETS
  {
    assert BRACKETS == ['<', '>', '"', '\'', '`'];
  }

  /** What is left out at an address's end: the punctuation of a sentence. */
  lemma TrailerIs(c: char)
    ensures IsTrailer(c) <==> c in PUNCTUATION
  {
    assert PUNCTUATION == ['.', ',', ';', ')', ']', '}', '!', '?', ':'];
  }

  /** Only punctuation stands between `end` and `stop`, where the text ends or an address must. */
  predicate OnlyPunctuation(text: string, end: nat, stop: nat) {
    && end <= stop <= |text|
    && (stop == |text| || IsSpace(text[stop]) || text[stop] in BRACKETS)
    && forall p | end <= p < stop :: text[p] in PUNCTUATION
  }

  lemma LinkIsOk(text: string, s: Span)
    requires s in UrlSpans(text)
    ensures UrlSpanOk(text, s)
  {
    StretchesAreOk(text, 0);
    LinksOk(text, 0, Stretches(text, 0));
  }

  lemma EndIsPunctuated(text: string, s: Span)
    requires UrlSpanOk(text, s)
    ensures OnlyPunctuation(text, s.end, FindDelimiter(text, s.start))
  {
    var stop := FindDelimiter(text, s.start);
    if stop < |text| { DelimiterIs(text[stop]); }
    forall p | s.end <= p < stop ensures text[p] in PUNCTUATION {
      TrailerIs(text[p]);
    }
  }

  /**
   A link has no white space, bracket or quote in it and no punctuation at its end, and behind it there is
   only such punctuation before the next of those or the end of the text.
   */
  lemma LinkReads(text: string, s: Span)
    requires s in UrlSpans(text)
    ensures 0 <= s.start < s.end <= |text| && s.text == text[s.start..s.end] && text[s.end - 1] !in PUNCTUATION
    ensures forall p | s.start <= p < s.end :: !IsSpace(text[p]) && text[p] !in BRACKETS
    ensures exists stop :: OnlyPunctuation(text, s.end, stop)
  {
    LinkIsOk(text, s);
    TrailerIs(text[s.end - 1]);
    forall p | s.start <= p < s.end ensures !IsSpace(text[p]) && text[p] !in BRACKETS {
      DelimiterIs(text[p]);
    }
    EndIsPunctuated(text, s);
  }

  // ---- which addresses are found ---------------------------------------------------------

  /** Some stretch from `i` on covers position `p`. */
  ghost predicate Covered(text: string, i: nat, p: nat)
    requires i <= |text|
  {
    exists s :: s in Stretches(text, i) && s.start <= p < s.stop
  }

  /** ... and it starts at a secure address. */
  ghost predicate SecurelyCovered(text: string, i: nat, p: nat)
    requires i <= |text|
  {
    exists s :: s in Stretches(text, i) && s.start <= p < s.stop && SchemeAt(text, s.start, HTTPS)
  }

  /** Where the search goes on after the first stretch, and what that stretch covers. */
  lemma CoveredStep(text: string, i: nat, p: nat)
    requires i <= |text| && NextUrl(text, i).Some?
    ensures var start := NextUrl(text, i).value; var stop := FindDelimiter(text, start);
      && i <= start < stop
      && (Covered(text, i, p) <==> start <= p < stop || Covered(text, stop, p))
      && (SecurelyCovered(text, i, p) <==>
            (start <= p < stop && SchemeAt(text, start, HTTPS)) || SecurelyCovered(text, stop, p))
  {
    var start := NextUrl(text, i).value;
    SchemeHasNoDelimiter(text, start);
    var s, rest := Stretch(start, FindDelimiter(text, start)), Stretches(text, FindDelimiter(text, start));
    assert Stretches(text, i) == [s] + rest;
    assert forall x :: x in Stretches(text, i) <==> x == s || x in rest;
  }

  /** A secure address is always part of some stretch. */
  lemma {:induction false} SecureIsCovered(text: string, i: nat, p: nat)
    requires i <= p && SchemeAt(text, p, HTTPS)
    ensures Covered(text, i, p)
    decreases |text| - i
  {
    var start := NextUrl(text, i).value;
    CoveredStep(text, i, p);
    if FindDelimiter(text, start) <= p {
      SecureIsCovered(text, FindDelimiter(text, start), p);
    }
  }

  lemma SchemesDiffer(text: string, p: nat)
    requires SchemeAt(text, p, HTTPS)
    ensures !SchemeAt(text, p, HTTP)
  {
    SchemeChar(text, p, HTTPS, 4);
    if SchemeAt(text, p, HTTP) { SchemeChar(text, p, HTTP, 4); }
  }

  /** A secure address from `i` on reaches `p` without a delimiter in between. */
  predicate InsideSecure(text: string, i: nat, p: nat)
    requires p <= |text|
  {
    exists q | i <= q <= p :: SchemeAt(text, q, HTTPS) && forall k | q <= k < p :: !IsDelimiter(text[k])
  }

  /** A stretch that does not start at a secure address has none behind its start. */
  lemma {:induction false} PlainStretchIsLast(text: string, i: nat, s: Stretch, q: nat)
    requires i <= |text| && s in Stretches(text, i) && !SchemeAt(text, s.start, HTTPS) && s.start <= q
    ensures !SchemeAt(text, q, HTTPS)
    decreases |text| - i
  {
    var start := NextUrl(text, i).value;
    CoveredStep(text, i, q);
    if s != Stretch(start, FindDelimiter(text, start)) {
      PlainStretchIsLast(text, FindDelimiter(text, start), s, q);
    }
  }

  lemma StretchFacts(text: string, i: nat, s: Stretch)
    requires i <= |text| && s in Stretches(text, i)
    ensures i <= s.start && StretchOk(text, s)
  {
    StretchesAreOk(text, i);
  }

  /** Being covered from a secure address is a matter of the text alone. */
  lemma SecurelyCoveredIff(text: string, i: nat, p: nat)
    requires i <= p && p + 1 <= |text| && !IsDelimiter(text[p])
    ensures SecurelyCovered(text, i, p) <==> InsideSecure(text, i, p)
  {
    if SecurelyCovered(text, i, p) {
      var s :| s in Stretches(text, i) && s.start <= p < s.stop && SchemeAt(text, s.start, HTTPS);
      StretchFacts(text, i, s);
    }
    if InsideSecure(text, i, p) {
      var q :| i <= q <= p && SchemeAt(text, q, HTTPS) && forall k | q <= k < p :: !IsDelimiter(text[k]);
      SecureIsCovered(text, i, q);
      var s :| s in Stretches(text, i) && s.start <= q < s.stop;
      StretchFacts(text, i, s);
      if !SchemeAt(text, s.start, HTTPS) { PlainStretchIsLast(text, i, s, q); }
      StretchGoesOn(text, s, q, p);
    }
  }

  lemma StretchGoesOn(text: string, s: Stretch, q: nat, p: nat)
    requires StretchOk(text, s) && s.start <= q < s.stop && q <= p < |text| && !IsDelimiter(text[p])
    requires forall k | q <= k < p :: !IsDelimiter(text[k])
    ensures p < s.stop
  {
  }

  lemma {:induction false} PlainIsCoveredWhen(text: string, i: nat, p: nat)
    requires i <= p && SchemeAt(text, p, HTTP)
    ensures Covered(text, i, p) <==> SecurelyCovered(text, i, p) || forall q | p < q :: !SchemeAt(text, q, HTTPS)
    decreases |text| - i
  {
    var start := NextUrl(text, i).value;
    CoveredStep(text, i, p);
    var stop := FindDelimiter(text, start);
    if stop <= p {
      PlainIsCoveredWhen(text, stop, p);
    } else if start <= p {
      if SchemeAt(text, start, HTTPS) { SchemesDiffer(text, start); }
    } else {
      LaterIsNotCovered(text, stop, p);
    }
  }

  /**
   A plain address is found exactly when a secure one reaches it without a delimiter or none follows it:
   the search prefers a secure address ahead and skips the plain ones before it.
   */
  lemma PlainIsCoveredIff(text: string, i: nat, p: nat)
    requires i <= p && SchemeAt(text, p, HTTP)
    ensures Covered(text, i, p) <==> InsideSecure(text, i, p) || forall q | p < q :: !SchemeAt(text, q, HTTPS)
  {
    SchemeHasNoDelimiter(text, p);
    assert !IsDelimiter(text[p]);
    PlainIsCoveredWhen(text, i, p);
    SecurelyCoveredIff(text, i, p);
  }

  lemma LaterIsNotCovered(text: string, i: nat, p: nat)
    requires p < i <= |text|
    ensures !Covered(text, i, p) && !SecurelyCovered(text, i, p)
  {
    StretchesAreOk(text, i);
  }

  /** So a plain link in front of a secure one is not shown as a link. */
  lemma EarlierPlainLinkIsLost()
    ensures SchemeAt("http://a https://b", 0, HTTP) && !Covered("http://a https://b", 0, 0)
  {
    var text := "http://a https://b";
    assert text[0..7] == HTTP;
    assert text[9..17] == HTTPS;
    assert SchemeAt(text, 9, HTTPS);
    PlainIsCoveredIff(text, 0, 0);
    if InsideSecure(text, 0, 0) {
      SchemesDiffer(text, 0);
    }
  }
}
