/** The avatar and media caches as objects whose tables and queues are updated in place. */
module Caches {
  import opened Text
  import F = FetchOnce
  import M = MediaFetch

  class AvatarCache {
    var urls: map<string, string>
    var pending: set<string>
    var settled: set<string>
    var toFetch: seq<F.Fetch>

    constructor ()
      ensures View() == F.EMPTY
    {
      urls, pending, settled, toFetch := map[], {}, {}, [];
    }

    ghost function View(): F.Cache
      reads this
    {
      F.Cache(urls, pending, settled, toFetch)
    }

    method Prefetch(nick: string, did: Option<string>)
      modifies this
      ensures View() == F.Prefetch(old(View()), nick, did)
    {
      var key := F.NickKey(nick);
      if key == "" || StartsWith(key, "guest") || StartsWith(key, "web") {
        return;
      }
      if key in urls || key in pending || key in settled {
        return;
      }
      var actor := F.ResolveActor(nick, did);
      if actor.Some? {
        pending := pending + {key};
        toFetch := toFetch + [F.Fetch(F.Trim(nick), actor.value)];
      }
    }

    method DrainPending() returns (batch: seq<F.Fetch>)
      modifies this
      ensures forall sent :: F.Step(F.Trace(old(View()), sent), F.OpDrain) == F.Trace(View(), sent + batch)
    {
      batch := toFetch;
      toFetch := [];
    }

    method ApplyResult(nick: string, result: Option<F.Profile>)
      modifies this
      ensures View() == F.Apply(old(View()), nick, result)
    {
      var key := ToLowercase(nick);
      pending := pending - {key};
      if result.None? || result.value.avatar.None? || F.Trim(result.value.avatar.value) == "" {
        settled := settled + {key};
        return;
      }
      var url := F.Trim(result.value.avatar.value);
      urls := urls[key := url];
      settled := settled - {key};
      var handle := F.DropAts(F.Trim(result.value.handle));
      if handle != "" && ToLowercase(handle) != key {
        urls := urls[ToLowercase(handle) := url];
      }
    }

    method Seed(nick: string, avatar: string)
      modifies this
      ensures View() == F.Seed(old(View()), nick, avatar)
    {
      var url := F.Trim(avatar);
      if url == "" {
        return;
      }
      var key := ToLowercase(nick);
      urls := urls[key := url];
      pending := pending - {key};
      settled := settled - {key};
    }

    method Clear()
      modifies this
      ensures View() == F.EMPTY
    {
      urls, pending, settled, toFetch := map[], {}, {}, [];
    }
  }

  class MediaCache {
    var images: map<string, M.Load<string>>
    var fullImages: map<string, M.Load<string>>
    var videos: map<string, M.Load<string>>
    var links: map<string, M.Load<M.Meta>>
    var pending: seq<M.Fetch>

    constructor ()
      ensures View() == M.EMPTY
    {
      images, fullImages, videos, links, pending := map[], map[], map[], map[], [];
    }

    ghost function View(): M.Media
      reads this
    {
      M.Media(images, fullImages, videos, links, pending)
    }

    method TouchImage(url: string) returns (state: Option<M.Load<string>>)
      modifies this
      ensures View() == M.Touch(old(View()), M.Fetch(M.Image, url))
      ensures state == if M.IsHttp(url) then Some(View().images[url]) else None
    {
      if !M.IsHttp(url) {
        return None;
      }
      if url !in images {
        images := images[url := M.Loading];
        pending := pending + [M.Fetch(M.Image, url)];
      }
      return Some(images[url]);
    }

    method TouchImageFull(url: string) returns (state: Option<M.Load<string>>)
      modifies this
      ensures View() == M.Touch(old(View()), M.Fetch(M.FullImage, url))
      ensures state == if M.IsHttp(url) then Some(View().fullImages[url]) else None
    {
      if !M.IsHttp(url) {
        return None;
      }
      if url !in fullImages {
        fullImages := fullImages[url := M.Loading];
        pending := pending + [M.Fetch(M.FullImage, url)];
      }
      return Some(fullImages[url]);
    }

    method TouchVideo(url: string) returns (state: Option<M.Load<string>>)
      modifies this
      ensures View() == M.Touch(old(View()), M.Fetch(M.Video, url))
      ensures state == if M.IsHttp(url) then Some(View().videos[url]) else None
    {
      if !M.IsHttp(url) {
        return None;
      }
      if url !in videos {
        videos := videos[url := M.Loading];
        pending := pending + [M.Fetch(M.Video, url)];
      }
      return Some(videos[url]);
    }

    method TouchLink(url: string) returns (state: Option<M.Load<M.Meta>>)
      modifies this
      ensures View() == M.Touch(old(View()), M.Fetch(M.LinkCard, url))
      ensures state == if M.IsHttp(url) then Some(View().links[url]) else None
    {
      if !M.IsHttp(url) {
        return None;
      }
      if url !in links {
        links := links[url := M.Loading];
        pending := pending + [M.Fetch(M.LinkCard, url)];
      }
      return Some(links[url]);
    }

    method SetLinkReady(url: string, meta: M.Meta)
      modifies this
      ensures View() == M.SetLink(old(View()), url, meta)
    {
      if meta.thumb.Some? {
        var _ := TouchImage(meta.thumb.value);
      }
      links := links[url := M.Ready(meta)];
    }

    /** A link card that came with a message; one that already says something is kept. */
    method SeedLink(url: string, meta: M.Meta)
      modifies this
      ensures View() == M.SeedLink(old(View()), url, meta)
    {
      if url == "" {
        return;
      }
      if url in links && links[url].Ready? {
        var existing := links[url].content;
        if existing.title.Some? || existing.description.Some? {
          return;
        }
      }
      SetLinkReady(url, meta);
    }

    method SetFailed(f: M.Fetch)
      modifies this
      ensures View() == M.SetFailed(old(View()), f)
    {
      match f.kind
      case Image => images := images[f.url := M.Failed];
      case FullImage => fullImages := fullImages[f.url := M.Failed];
      case Video => videos := videos[f.url := M.Failed];
      case LinkCard => links := links[f.url := M.Failed];
    }

    method DrainPending() returns (batch: seq<M.Fetch>)
      modifies this
      ensures forall sent :: M.Step(M.Trace(old(View()), sent), M.OpDrain) == M.Trace(View(), sent + batch)
    {
      batch := pending;
      pending := [];
    }
  }
}
