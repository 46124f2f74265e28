/**
 The mutable buffer of one conversation. Every method is proved to do to its fields exactly
 what the corresponding function of `Timeline` does to the log value.
 */
module Buffers {
  import opened Text
  import opened Timeline

  /** The place to insert is the only one with older rows before it and newer ones after it. */
  lemma InsertIndexIs(rows: seq<Message>, time: int, k: nat)
    requires Sorted(rows) && k <= |rows|
    requires k > 0 ==> rows[k - 1].time <= time
    requires k < |rows| ==> time < rows[k].time
    ensures InsertIndex(rows, time) == k
  {
  }

  /** The three searches are determined by what they promise. */
  lemma LastEchoIs(rows: seq<Message>, m: Message, k: int)
    requires -1 <= k < |rows| && (k >= 0 ==> IsEchoOf(rows[k], m))
    requires forall j | k < j < |rows| :: !IsEchoOf(rows[j], m)
    ensures LastEcho(rows, m) == k
  {
  }

  lemma FindIs(rows: seq<Message>, id: string, k: int)
    requires id != "" && -1 <= k < |rows|
    requires k >= 0 ==> Names(rows[k], id) && forall j | 0 <= j < k :: !Names(rows[j], id)
    requires k < 0 ==> forall j | 0 <= j < |rows| :: !Names(rows[j], id)
    ensures Find(rows, id) == k
  {
  }

  lemma FindLastIs(rows: seq<Message>, id: string, k: int)
    requires -1 <= k < |rows| && (k >= 0 ==> Names(rows[k], id))
    requires forall j | k < j < |rows| :: !Names(rows[j], id)
    ensures FindLast(rows, id) == k
  {
  }

  class Buffer {
    const cap: nat
    var name: string
    var messages: seq<Message>
    var unread: nat
    var lastActivity: int
    var topic: string
    var call: Option<string>
    var messageIds: set<string>
    var editAliases: set<string>

    ghost function View(): Log
      reads this
    {
      Log(name, messages, messageIds, editAliases, unread, lastActivity, topic, call)
    }

    ghost predicate IsValid()
      reads this
    {
      Valid(cap, View())
    }

    constructor (name: string, cap: nat)
      ensures View() == EmptyLog(name) && this.cap == cap && IsValid()
    {
      this.cap := cap;
      this.name := name;
      messages := [];
      unread := 0;
      lastActivity := 0;
      topic := "";
      call := None;
      messageIds := {};
      editAliases := {};
    }

    /** The newest optimistic copy that `m` confirms, or -1. */
    method FindLocalEcho(m: Message) returns (pos: int)
      ensures pos == LastEcho(messages, m)
    {
      pos := |messages| - 1;
      while pos >= 0 && !IsEchoOf(messages[pos], m)
        invariant -1 <= pos < |messages|
        invariant forall j | pos < j < |messages| :: !IsEchoOf(messages[j], m)
      {
        pos := pos - 1;
      }
      LastEchoIs(messages, m, pos);
    }

    method ConsumeLocalEcho(m: Message)
      modifies `messages, `messageIds
      ensures View() == ConsumeEcho(old(View()), m)
    {
      if m.author == "" {
        return;
      }
      var pos := FindLocalEcho(m);
      if pos >= 0 {
        var confirmed := messages[pos];
        messages := messages[..pos] + messages[pos + 1..];
        messageIds := messageIds - {confirmed.id};
      }
    }

    /** Where a row stamped `time` goes: appended when it is not older than the newest row. */
    method InsertPosition(time: int) returns (idx: nat)
      requires Sorted(messages)
      ensures idx == InsertIndex(messages, time)
    {
      if messages != [] && time < messages[|messages| - 1].time {
        idx := 0;
        while idx < |messages| && messages[idx].time <= time
          invariant 0 <= idx <= |messages|
          invariant forall j | 0 <= j < idx :: messages[j].time <= time
        {
          idx := idx + 1;
        }
      } else {
        idx := |messages|;
      }
      InsertIndexIs(messages, time, idx);
    }

    /** Cut the oldest rows until the buffer is within its cap. */
    method EvictOldest()
      modifies `messages, `messageIds
      ensures View() == Evict(cap, old(View()))
    {
      while |messages| > cap
        invariant Evict(cap, View()) == Evict(cap, old(View()))
      {
        var oldest := messages[0];
        messages := messages[1..];
        messageIds := messageIds - {oldest.id};
      }
    }

    /** Note the id, drop the optimistic copy the message confirms, and move the last activity. */
    method Accept(m: Message)
      modifies `messages, `messageIds, `lastActivity
      ensures View() == Timeline.Accept(old(View()), m)
    {
      if m.id != "" {
        messageIds := messageIds + {m.id};
      }
      if !m.isSystem && !IsLocal(m.id) {
        ConsumeLocalEcho(m);
      }
      var seconds := Seconds(m.time);
      if !m.isSystem && seconds > lastActivity {
        lastActivity := seconds;
      }
    }

    /** Insert the row in time order, after rows of its own time. */
    method InsertRow(m: Message)
      requires Sorted(messages)
      modifies `messages
      ensures View() == old(View()).(rows := Insert(old(messages), m))
    {
      var idx := InsertPosition(m.time);
      messages := messages[..idx] + [m] + messages[idx..];
    }

    method Append(m: Message)
      requires IsValid()
      modifies this
      ensures View() == Timeline.Append(cap, old(View()), m)
      ensures IsValid()
    {
      AppendKeepsValid(cap, View(), m);
      if m.id != "" && m.id in editAliases {
        return;
      }
      if m.id != "" && m.id in messageIds {
        return;
      }
      AcceptFacts(cap, View(), m);
      Accept(m);
      InsertRow(m);
      EvictOldest();
    }

    /** The first row `id` names; none for an empty id. */
    method FindMessage(id: string) returns (i: int)
      ensures i == Find(messages, id)
    {
      if id == "" {
        return -1;
      }
      i := 0;
      while i < |messages| && !Names(messages[i], id)
        invariant 0 <= i <= |messages|
        invariant forall j | 0 <= j < i :: !Names(messages[j], id)
      {
        i := i + 1;
      }
      if i == |messages| {
        i := -1;
      }
      FindIs(messages, id, i);
    }

    method ApplyEdit(e: Edit) returns (applied: bool)
      modifies `messages, `messageIds, `editAliases
      ensures View() == Timeline.ApplyEdit(old(View()), e)
      ensures applied == EditApplies(old(View()), e)
    {
      var i := FindMessage(e.target);
      if i < 0 {
        return false;
      }
      var msg := messages[i];
      if !EqIgnoreCase(msg.author, e.editor) {
        return false;
      }
      if msg.isDeleted {
        return false;
      }
      var oldId := msg.id;
      msg := msg.(text := e.text, isEdited := true, embed := e.embed, linkMeta := e.linkMeta);
      if msg.editOf.None? {
        msg := msg.(editOf := Some(e.target));
      }
      var swap := SwapTo(e, oldId);
      if swap.Some? {
        msg := msg.(id := swap.value);
      }
      messages := messages[i := msg];
      editAliases := editAliases + {e.target};
      if oldId != e.target {
        editAliases := editAliases + {oldId};
      }
      if swap.Some? {
        messageIds := messageIds - {oldId};
        messageIds := messageIds + {swap.value};
      }
      return true;
    }

    method ApplyDelete(deleter: string, id: string) returns (applied: bool)
      modifies `messages
      ensures View() == Timeline.ApplyDelete(old(View()), deleter, id)
      ensures applied == DeleteApplies(old(View()), deleter, id)
    {
      var i := |messages| - 1;
      while i >= 0 && !Names(messages[i], id)
        invariant -1 <= i < |messages|
        invariant forall j | i < j < |messages| :: !Names(messages[j], id)
      {
        i := i - 1;
      }
      FindLastIs(messages, id, i);
      if i < 0 || !EqIgnoreCase(messages[i].author, deleter) {
        return false;
      }
      messages := messages[i := Tombstone(messages[i])];
      return true;
    }

    /** Take over another buffer's messages; the other one is given up and left as it was. */
    method Absorb(other: Buffer)
      requires IsValid() && other != this
      modifies this
      ensures View() == Timeline.Absorb(cap, old(View()), other.View())
      ensures IsValid()
    {
      unread := SaturatingAdd(unread, other.unread);
      if other.lastActivity > lastActivity {
        lastActivity := other.lastActivity;
      }
      ghost var head := View();
      assert head == AbsorbHead(old(View()), other.View());
      var k := 0;
      while k < |other.messages|
        invariant 0 <= k <= |other.messages|
        invariant IsValid()
        invariant View() == AppendAll(cap, head, other.messages[..k])
      {
        Append(other.messages[k]);
        assert other.messages[..k + 1][..k] == other.messages[..k];
        k := k + 1;
      }
      assert other.messages[..k] == other.messages;
      if topic == "" && other.topic != "" {
        topic := other.topic;
      }
      if call.None? {
        call := other.call;
      }
    }

    method SeedActivityFromTarget(seconds: int)
      modifies `lastActivity
      ensures View() == SeedActivity(old(View()), seconds)
    {
      if messages == [] || seconds > lastActivity {
        lastActivity := seconds;
      }
    }

    method MarkRead()
      modifies `unread
      ensures View() == old(View()).(unread := 0)
    {
      unread := 0;
    }
  }
}
