/** How a participant's media broadcast is named, and whose broadcasts are listened to. */
module BroadcastPath {
  import opened Text

  function Build(session: string, nick: string, instance: string): string {
    session + "/" + Key(nick, instance)
  }

  /** A device of a participant. */
  function Key(nick: string, instance: string): string {
    if instance == "" then nick else nick + "~" + instance
  }

  /** What follows the last `/`. */
  function PathKey(path: string): string {
    if path == "" || path[|path| - 1] == '/' then "" else PathKey(path[..|path| - 1]) + [path[|path| - 1]]
  }

  /** What comes before the first `~`. */
  function BeforeTilde(s: string): string {
    if s == "" || s[0] == '~' then "" else [s[0]] + BeforeTilde(s[1..])
  }

  function PathNick(path: string): string {
    BeforeTilde(PathKey(path))
  }

  predicate ShouldTap(path: string, session: string, ours: string, me: string) {
    && path != ours
    && (StartsWith(path, session + "/") || path == session || '/' !in path)
    && !EqIgnoreCase(PathNick(path), me)
  }

  /** A name that a path can carry back out. */
  predicate Plain(nick: string) {
    '/' !in nick && '~' !in nick
  }

  lemma {:induction false} PathKeyOf(head: string, key: string)
    requires '/' !in key
    ensures PathKey(head + "/" + key) == key
    decreases |key|
  {
    var path := head + "/" + key;
    if key == "" {
      assert path[|path| - 1] == '/';
    } else {
      var init, last := key[..|key| - 1], key[|key| - 1];
      assert path[..|path| - 1] == head + "/" + init;
      assert last in key;
      PathKeyOf(head, init);
    }
  }

  lemma {:induction false} BeforeTildeOf(nick: string, rest: string)
    requires '~' !in nick && (rest == "" || rest[0] == '~')
    ensures BeforeTilde(nick + rest) == nick
    decreases |nick|
  {
    var s := nick + rest;
    if nick != "" {
      assert nick[0] in nick && s[1..] == nick[1..] + rest;
      BeforeTildeOf(nick[1..], rest);
    } else {
      assert s == rest;
    }
  }

  lemma {:induction false} BeforeTildeHasNone(s: string)
    ensures '~' !in BeforeTilde(s) && ('/' !in s ==> '/' !in BeforeTilde(s))
  {
    if s != "" && s[0] != '~' {
      BeforeTildeHasNone(s[1..]);
    }
  }

  lemma {:induction false} PathKeyHasNone(path: string)
    ensures '/' !in PathKey(path)
    decreases |path|
  {
    if path != "" && path[|path| - 1] != '/' {
      PathKeyHasNone(path[..|path| - 1]);
    }
  }

  lemma KeyHasNoSlash(nick: string, instance: string)
    requires '/' !in nick && '/' !in instance
    ensures '/' !in Key(nick, instance)
  {
  }

  /** What a device adds behind the nick. */
  function Suffix(instance: string): string {
    if instance == "" then "" else "~" + instance
  }

  lemma KeyIs(nick: string, instance: string)
    ensures Key(nick, instance) == nick + Suffix(instance)
  {
  }

  lemma NickComesBack(session: string, nick: string, instance: string)
    requires '/' !in instance && Plain(nick)
    ensures PathNick(Build(session, nick, instance)) == nick
  {
    KeyHasNoSlash(nick, instance);
    PathKeyOf(session, Key(nick, instance));
    KeyIs(nick, instance);
    BeforeTildeOf(nick, Suffix(instance));
  }

  /** The nick comes back out of a path exactly when it has neither separator in it. */
  lemma NickComesBackIff(session: string, nick: string, instance: string)
    requires '/' !in instance
    ensures PathNick(Build(session, nick, instance)) == nick <==> Plain(nick)
  {
    if Plain(nick) {
      NickComesBack(session, nick, instance);
    } else {
      PathKeyHasNone(Build(session, nick, instance));
      BeforeTildeHasNone(PathKey(Build(session, nick, instance)));
    }
  }

  /** Two devices share a frame store key only if they are the same device of the same nick. */
  lemma KeysAreDistinct(session: string, nick: string, instance: string,
                        session': string, nick': string, instance': string)
    requires Plain(nick) && Plain(nick') && '/' !in instance && '/' !in instance'
    ensures PathKey(Build(session, nick, instance)) == PathKey(Build(session', nick', instance'))
            <==> nick == nick' && instance == instance'
  {
    KeyHasNoSlash(nick, instance);
    KeyHasNoSlash(nick', instance');
    PathKeyOf(session, Key(nick, instance));
    PathKeyOf(session', Key(nick', instance'));
    KeyInjective(nick, instance, nick', instance');
  }

  lemma KeyInjective(nick: string, instance: string, nick': string, instance': string)
    requires Plain(nick) && Plain(nick')
    ensures Key(nick, instance) == Key(nick', instance') ==> nick == nick' && instance == instance'
  {
    var rest, rest' := Suffix(instance), Suffix(instance');
    KeyIs(nick, instance);
    KeyIs(nick', instance');
    BeforeTildeOf(nick, rest);
    BeforeTildeOf(nick', rest');
    if Key(nick, instance) == Key(nick', instance') {
      assert rest == (nick + rest)[|nick|..] == (nick' + rest')[|nick'|..] == rest';
      assert instance == rest[if rest == "" then 0 else 1..] && instance' == rest'[if rest' == "" then 0 else 1..];
    }
  }

  function FirstSlash(s: string): nat {
    if s == "" || s[0] == '/' then 0 else 1 + FirstSlash(s[1..])
  }

  lemma {:induction false} FirstSlashOf(head: string, tail: string)
    requires '/' !in head
    ensures FirstSlash(head + "/" + tail) == |head|
  {
    var s := head + "/" + tail;
    if head != "" {
      assert head[0] in head && s[1..] == head[1..] + "/" + tail;
      FirstSlashOf(head[1..], tail);
    }
  }

  lemma SessionOf(session: string, session': string, key: string)
    requires '/' !in session && '/' !in session'
    ensures StartsWith(session' + "/" + key, session + "/") <==> session == session'
  {
    var path, prefix := session' + "/" + key, session + "/";
    if session == session' {
      assert path[..|prefix|] == prefix;
    }
    if StartsWith(path, prefix) {
      var tail := path[|prefix|..];
      assert path == session + "/" + tail;
      FirstSlashOf(session, tail);
      FirstSlashOf(session', key);
      assert session == path[..|session|] && session' == path[..|session'|];
    }
  }

  /** A path that names no session is listened to unless it is ours or of our nick. */
  lemma TapsBarePaths(path: string, session: string, ours: string, me: string)
    requires '/' !in path
    ensures ShouldTap(path, session, ours, me) <==> path != ours && !EqIgnoreCase(BeforeTilde(path), me)
  {
    PathKeyOfBare(path);
  }

  lemma {:induction false} PathKeyOfBare(path: string)
    requires '/' !in path
    ensures PathKey(path) == path
    decreases |path|
  {
    if path != "" {
      assert path[|path| - 1] in path;
      PathKeyOfBare(path[..|path| - 1]);
    }
  }

  /** A participant listens to exactly the broadcasts of its own session by anyone with another nick. */
  lemma TapsExactlyOthers(session: string, me: string, device: string, session': string, nick: string, instance: string)
    requires '/' !in session && '/' !in session'
    requires Plain(nick) && Plain(me) && '/' !in instance && '/' !in device
    ensures ShouldTap(Build(session', nick, instance), session, Build(session, me, device), me)
            <==> session' == session && !EqIgnoreCase(nick, me)
  {
    var path := Build(session', nick, instance);
    NickComesBack(session', nick, instance);
    NickComesBack(session, me, device);
    SessionOf(session, session', Key(nick, instance));
    assert path == session' + "/" + Key(nick, instance);
    assert path[|session'|] == '/';
    assert '/' in path;
  }
}
