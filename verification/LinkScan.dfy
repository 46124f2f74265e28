/** The two scanners as loops over the text, and the list built from both. */
module LinkScan {
  import opened Text
  import L = LinkSpans
  import C = ChannelSpans
  import O = LinkOverlap

  /** Drop punctuation from the end of a link. */
  method Strip(text: string, start: nat, stop: nat) returns (end: nat)
    requires start <= stop <= |text|
    ensures end == L.StripTrailers(text, start, stop)
  {
    end := stop;
    while end > start && L.IsTrailer(text[end - 1])
      invariant start <= end <= stop
      invariant L.StripTrailers(text, start, end) == L.StripTrailers(text, start, stop)
    {
      end := end - 1;
    }
  }

  /** Take the address that starts here; where it stops. */
  method TakeUrl(text: string, start: nat) returns (link: seq<L.Span>, stop: nat)
    requires start <= |text|
    ensures stop == L.FindDelimiter(text, start) && link == L.LinkOf(text, L.Stretch(start, stop))
  {
    stop := start;
    while stop < |text| && !L.IsDelimiter(text[stop])
      invariant start <= stop <= |text|
      invariant L.FindDelimiter(text, stop) == L.FindDelimiter(text, start)
    {
      stop := stop + 1;
    }
    var end := Strip(text, start, stop);
    var url := text[start..end];
    link := if StartsWith(url, L.HTTP) || StartsWith(url, L.HTTPS) then [L.Span(start, end, url)] else [];
  }

  /** The addresses from `i` on. */
  function Rest(text: string, i: nat): seq<L.Span>
    requires i <= |text|
  {
    L.StretchesAreOk(text, i);
    L.Links(text, L.Stretches(text, i))
  }

  lemma RestUnfold(text: string, i: nat)
    requires i <= |text|
    ensures L.NextUrl(text, i).None? ==> Rest(text, i) == []
    ensures L.NextUrl(text, i).Some? ==>
      var start := L.NextUrl(text, i).value; var stop := L.FindDelimiter(text, start);
      i < stop && Rest(text, i) == L.LinkOf(text, L.Stretch(start, stop)) + Rest(text, stop)
  {
    var next := L.NextUrl(text, i);
    L.StretchesAreOk(text, i);
    if next.Some? {
      L.SchemeHasNoDelimiter(text, next.value);
      var stop := L.FindDelimiter(text, next.value);
      assert L.Stretches(text, i)[1..] == L.Stretches(text, stop);
    }
  }

  method ExtractUrlSpans(text: string) returns (out: seq<L.Span>)
    ensures out == L.UrlSpans(text)
  {
    out := [];
    var i := 0;
    while i < |text|
      invariant i <= |text|
      invariant out + Rest(text, i) == Rest(text, 0)
    {
      RestUnfold(text, i);
      var next := L.NextUrl(text, i);
      if next.None? {
        return;
      }
      var link, stop := TakeUrl(text, next.value);
      Joined(out, link, Rest(text, stop));
      out := out + link;
      i := stop;
    }
    NoneAtEnd(text);
  }

  lemma NoneAtEnd(text: string)
    ensures Rest(text, |text|) == []
  {
    RestUnfold(text, |text|);
  }

  lemma Joined<T>(a: seq<T>, b: seq<T>, c: seq<T>)
    ensures a + (b + c) == (a + b) + c
  {
  }

  /** One look for a mention, and where to look next. */
  method Look(text: string, urls: seq<L.Span>, i: nat) returns (found: Option<L.Span>, next: nat)
    requires i < |text|
    ensures C.Look(found, next) == C.LookFrom(text, urls, i)
  {
    if C.InUrl(urls, i) {
      return None, i + 1;
    }
    var start := C.FindPrefix(text, i);
    if start == |text| {
      return None, |text|;
    }
    if C.Blocked(text, start) {
      return None, start + 1;
    }
    var end := start + 1;
    while end < |text| && C.IsNameChar(text[end])
      invariant start + 1 <= end <= |text|
      invariant C.NameEnd(text, end) == C.NameEnd(text, start + 1)
    {
      end := end + 1;
    }
    end := Strip(text, start + 1, end);
    if end > start + 1 {
      return Some(L.Span(start, end, text[start..end])), end;
    }
    return None, start + 1;
  }

  method ExtractChannelSpans(text: string, urls: seq<L.Span>) returns (out: seq<L.Span>)
    ensures out == C.Mentions(text, urls, 0)
  {
    out := [];
    var i := 0;
    while i < |text|
      invariant i <= |text|
      invariant out + C.Mentions(text, urls, i) == C.Mentions(text, urls, 0)
      decreases |text| - i
    {
      var found, next := Look(text, urls, i);
      var more := if found.Some? then [found.value] else [];
      Joined(out, more, C.Mentions(text, urls, next));
      out := out + more;
      i := next;
    }
  }

  method ExtractMessageLinkSpans(text: string) returns (out: seq<O.Link>)
    ensures out == O.MessageLinks(text)
  {
    var urls := ExtractUrlSpans(text);
    var channels := ExtractChannelSpans(text, urls);
    out := O.SortByStart(O.UrlLinks(urls) + O.ChannelLinks(channels));
  }
}
