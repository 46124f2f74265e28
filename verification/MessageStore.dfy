/** The message index as the object the client mutates, proved against `UnreadIndex`. */
module MessageStores {
  import opened Text
  import opened UnreadIndex

  class MessageStore {
    var messages: map<MessageKey, Row>
    var readState: map<ChannelKey, int>

    ghost function View(): Store
      reads this
    {
      Store(messages, readState)
    }

    constructor ()
      ensures View() == Store(map[], map[])
    {
      messages, readState := map[], map[];
    }

    /** Insert once; later inserts of the same id are ignored. */
    method Insert(account: string, channel: string, msgid: string, ts: int, fromMe: bool)
      modifies this
      ensures View() == InsertMessage(old(View()), ChannelOf(account, channel), msgid, Row(ts, fromMe))
    {
      if msgid == "" || StartsWith(msgid, "local-") || StartsWith(msgid, "sys-") {
        return;
      }
      var key := MessageOf(ChannelOf(account, channel), msgid);
      if key !in messages {
        messages := messages[key := Row(ts, fromMe)];
      }
    }

    /** `SELECT COALESCE(MAX(ts), 0)` over one channel. */
    method MaxTime(ck: ChannelKey, exclude: Option<string>) returns (m: int)
      ensures m == MaxOrZero(Times(View(), ck, exclude))
    {
      m := MaxOrZero(set k | k in messages && InChannel(k, ck) && exclude != Some(k.2) :: messages[k].ts);
    }

    method MarkRead(account: string, channel: string, at: int)
      modifies this
      ensures View() == UnreadIndex.MarkRead(old(View()), ChannelOf(account, channel), at)
    {
      var ck := ChannelOf(account, channel);
      var maxMsg := MaxTime(ck, None);
      var ts := if at < maxMsg then maxMsg else at;
      if ck in readState {
        readState := readState[ck := if readState[ck] < ts then ts else readState[ck]];
      } else {
        readState := readState[ck := ts];
      }
    }

    method BaselineAfterHistory(account: string, channel: string)
      modifies this
      ensures View() == UnreadIndex.BaselineAfterHistory(old(View()), ChannelOf(account, channel))
    {
      var ck := ChannelOf(account, channel);
      if ck in readState {
        return;
      }
      var maxTs := MaxTime(ck, None);
      readState := readState[ck := maxTs];
    }

    method EnsureLiveBaseline(account: string, channel: string, exclude: string)
      modifies this
      ensures View() == UnreadIndex.EnsureLiveBaseline(old(View()), ChannelOf(account, channel), exclude)
    {
      var ck := ChannelOf(account, channel);
      if ck in readState {
        return;
      }
      var maxOther := MaxTime(ck, Some(exclude));
      readState := readState[ck := maxOther];
    }

    method UnreadCount(account: string, channel: string) returns (n: nat)
      ensures n == UnreadIndex.UnreadCount(View(), ChannelOf(account, channel))
    {
      var ck := ChannelOf(account, channel);
      if ck !in readState {
        return 0;
      }
      var last := readState[ck];
      var ids := set k | k in messages && InChannel(k, ck) && !messages[k].fromMe && messages[k].ts > last :: k.2;
      n := |ids|;
    }
  }
}
