/** The store object: src/service/mail.cpp:26-147. */
module MailStorage {
  import opened Core
  import opened MessageIds
  import opened MailModel

  class MailStore {
    const messages: array<StoredMessage>
    var messageCount: nat
    var initialized: bool
    var counter: nat

    constructor ()
      ensures Valid() && State() == MailModel.Fresh() && fresh(messages)
    {
      var blank := StoredMessage(Message("", "", "", "", 0, [], []), "", false);
      messages := new StoredMessage[1000](_ => blank);
      messageCount, initialized, counter := 0, false, 0;
    }

    ghost predicate Valid()
      reads this
    {
      messages.Length == MAX_MESSAGES && messageCount <= MAX_MESSAGES && counter < COUNTER_LIMIT
    }

    ghost function State(): Store
      requires Valid()
      reads this, messages
    {
      Store(messages[..messageCount], initialized, counter)
    }

    method GenerateMessageId(time: nat) returns (id: string)
      requires time < COUNTER_LIMIT && counter < COUNTER_LIMIT
      modifies this`counter
      ensures id == GeneratedId(time, old(counter)) && IsIdOf(id, time, old(counter))
      ensures counter == (old(counter) + 1) % 0x1_0000_0000_0000_0000
    {
      hide IsIdOf;
      GeneratedIdIs(time, counter);
      id := Truncated(Decimal(time) + "-" + Decimal(counter));
      GeneratedIdFits(time, counter);
      counter := (counter + 1) % COUNTER_LIMIT;
    }

    method Init() returns (code: ErrorCode)
      requires Valid()
      modifies this, messages
      ensures Valid() && State() == Step(old(State()), Op.Init) && Reply.Code(code) == Answer(old(State()), Op.Init)
      ensures code == OK && initialized && messageCount == (if old(initialized) then old(messageCount) else 0)
      ensures counter == old(counter)
    {
      if initialized {
        return OK;
      }
      messageCount := 0;
      for i := 0 to MAX_MESSAGES
        invariant Valid() && messageCount == 0 && counter == old(counter) && !initialized
      {
        var m := messages[i];
        messages[i] := StoredMessage(m.msg.(id := ""), "", false);
      }
      initialized := true;
      code := OK;
    }

    method Cleanup() returns (code: ErrorCode)
      requires Valid()
      modifies this
      ensures Valid() && State() == Step(old(State()), Op.Cleanup)
      ensures Reply.Code(code) == Answer(old(State()), Op.Cleanup)
      ensures code == OK && !initialized && messageCount == 0 && counter == old(counter)
    {
      initialized := false;
      messageCount := 0;
      code := OK;
    }

    /** `time` is the wall clock in seconds. */
    method Append(mailbox: string, msg: Message, time: nat) returns (code: ErrorCode)
      requires Valid() && time < COUNTER_LIMIT
      modifies this, messages
      ensures Valid() && State() == Step(old(State()), Op.Append(mailbox, msg, time))
      ensures Reply.Code(code) == Answer(old(State()), Op.Append(mailbox, msg, time))
      ensures code == if old(initialized) && old(messageCount) < 1000 then OK else ERR_INTERNAL
      ensures messageCount == old(messageCount) + (if code == OK then 1 else 0)
    {
      hide GeneratedId;
      if !initialized {
        return ERR_INTERNAL;
      }
      if messageCount >= MAX_MESSAGES {
        return ERR_INTERNAL;
      }
      var stored := StoredMessage(msg, Truncated(mailbox), false);
      if stored.msg.id == "" {
        var id := GenerateMessageId(time);
        stored := stored.(msg := stored.msg.(id := id));
      }
      messages[messageCount] := stored;
      messageCount := messageCount + 1;
      assert messages[..messageCount] == old(messages[..messageCount]) + [stored];
      code := OK;
    }

    /** Fills the caller's array with at most `count` messages; the new count is `found`. */
    method List(mailbox: string, msgs: array<Message>, count: nat) returns (code: ErrorCode, found: nat)
      requires Valid() && count <= msgs.Length
      modifies msgs
      ensures State() == old(State())
      ensures code == if initialized then OK else ERR_INTERNAL
      ensures code == OK ==> found == (if count < |Live(State().slots, mailbox)| then count
                                       else |Live(State().slots, mailbox)|)
      ensures code == OK ==> found <= count && msgs[found..] == old(msgs[found..])
                             && Listed(msgs[..found]) == Answer(State(), Op.List(mailbox, count))
      ensures code != OK ==> found == count && msgs[..] == old(msgs[..])
                             && Reply.Code(code) == Answer(State(), Op.List(mailbox, count))
    {
      hide Live;
      if !initialized {
        return ERR_INTERNAL, count;
      }
      found := 0;
      var i: nat := 0;
      LiveNone(mailbox);
      while i < messageCount && found < count
        invariant i <= messageCount && found <= count
        invariant msgs[..found] == Live(messages[..i], mailbox)
        invariant msgs[found..] == old(msgs[found..])
      {
        LiveNext(messages[..messageCount], i, mailbox);
        assert messages[..messageCount][..i] == messages[..i];
        assert messages[..messageCount][..i + 1] == messages[..i + 1];
        if !messages[i].deleted && messages[i].mailbox == mailbox {
          msgs[found] := messages[i].msg;
          found := found + 1;
        }
        i := i + 1;
      }
      LiveStarts(messages[..messageCount], i, mailbox);
      assert messages[..messageCount][..i] == messages[..i];
      code := OK;
    }

    /** The message in slot `i` is not deleted and has this mailbox and id, */
    ghost predicate IsAt(i: nat, mailbox: string, id: string)
      requires i < messages.Length
      reads messages
    {
      !messages[i].deleted && messages[i].mailbox == mailbox && messages[i].msg.id == id
    }

    /** and it is the first such one. */
    ghost predicate IsFirst(i: nat, mailbox: string, id: string)
      requires Valid()
      reads this, messages
    {
      i < messageCount && IsAt(i, mailbox, id) && forall j :: 0 <= j < i ==> !IsAt(j, mailbox, id)
    }

    method Fetch(mailbox: string, id: string) returns (code: ErrorCode, msg: Option<Message>)
      requires Valid()
      ensures !initialized ==> code == ERR_INTERNAL
      ensures initialized ==> code == if exists i: nat :: IsFirst(i, mailbox, id) then OK else ERR_IO
      ensures code == OK ==> exists i: nat :: IsFirst(i, mailbox, id) && msg == Some(messages[i].msg)
      ensures code == OK ==> msg.Some? && Fetched(msg.value) == Answer(State(), Op.Fetch(mailbox, id))
      ensures code != OK ==> msg.None? && Reply.Code(code) == Answer(State(), Op.Fetch(mailbox, id))
    {
      if !initialized {
        return ERR_INTERNAL, None;
      }
      for i: nat := 0 to messageCount
        invariant i <= FirstMatch(messages[..messageCount], mailbox, id)
        invariant forall j :: 0 <= j < i ==> !IsAt(j, mailbox, id)
      {
        if !messages[i].deleted && messages[i].mailbox == mailbox && messages[i].msg.id == id {
          assert Matches(messages[..messageCount][i], mailbox, id);
          assert IsFirst(i, mailbox, id);
          return OK, Some(messages[i].msg);
        }
        assert !Matches(messages[..messageCount][i], mailbox, id);
      }
      return ERR_IO, None;
    }

    /** Of all slots only `i` has changed, and that only by being marked. */
    ghost predicate Tombstoned(before: seq<StoredMessage>, i: nat)
      reads messages
    {
      i < |before| == messages.Length && messages[..] == before[i := before[i].(deleted := true)]
    }

    method Remove(mailbox: string, id: string) returns (code: ErrorCode)
      requires Valid()
      modifies messages
      ensures !initialized ==> code == ERR_INTERNAL
      ensures initialized ==> code == if exists i: nat :: old(IsFirst(i, mailbox, id)) then OK else ERR_IO
      ensures code == OK ==> exists i: nat :: old(IsFirst(i, mailbox, id)) && Tombstoned(old(messages[..]), i)
      ensures code != OK ==> messages[..] == old(messages[..])
      ensures State() == Step(old(State()), Op.Remove(mailbox, id))
      ensures Reply.Code(code) == Answer(old(State()), Op.Remove(mailbox, id))
    {
      if !initialized {
        return ERR_INTERNAL;
      }
      ghost var slots := messages[..messageCount];
      for i: nat := 0 to messageCount
        invariant messages[..messageCount] == slots == old(messages[..messageCount])
        invariant i <= FirstMatch(slots, mailbox, id) && messages[..] == old(messages[..])
        invariant forall j :: 0 <= j < i ==> !old(IsAt(j, mailbox, id))
      {
        assert messages[i] == slots[i];
        if !messages[i].deleted && messages[i].mailbox == mailbox && messages[i].msg.id == id {
          assert i == FirstMatch(slots, mailbox, id);
          assert old(IsFirst(i, mailbox, id));
          messages[i] := messages[i].(deleted := true);
          assert messages[..messageCount] == Deleted(slots, i);
          assert Tombstoned(old(messages[..]), i);
          return OK;
        }
      }
      return ERR_IO;
    }
  }

  lemma LiveNone(mailbox: string)
    ensures Live([], mailbox) == []
  {
  }

  lemma LiveNext(slots: seq<StoredMessage>, i: nat, mailbox: string)
    requires i < |slots|
    ensures Live(slots[..i + 1], mailbox)
         == Live(slots[..i], mailbox) + if !slots[i].deleted && slots[i].mailbox == mailbox then [slots[i].msg] else []
  {
    assert slots[..i + 1][..i] == slots[..i];
  }

  /** The messages found so far are the first of the mailbox. */
  lemma LiveStarts(slots: seq<StoredMessage>, i: nat, mailbox: string)
    requires i <= |slots|
    ensures Live(slots[..i], mailbox) <= Live(slots, mailbox)
    ensures i == |slots| ==> Live(slots[..i], mailbox) == Live(slots, mailbox)
  {
    assert slots[..i] + slots[i..] == slots;
    LiveConcat(slots[..i], slots[i..], mailbox);
    assert i == |slots| ==> slots[..i] == slots;
  }
}
