/** Message ids: src/service/mail.cpp:43-50. */
module MessageIds {
  import opened Core

  const COUNTER_LIMIT: nat := 0x1_0000_0000_0000_0000

  function Digit(n: nat): (c: char)
    requires n < 10
    ensures c != '-'
  {
    "0123456789"[n]
  }

  function DigitValue(c: char): nat {
    if '0' <= c <= '9' then (c as int) - 0x30 else 0
  }

  function Decimal(n: nat): (s: string)
    ensures |s| > 0
  {
    if n < 10 then [Digit(n)] else Decimal(n / 10) + [Digit(n % 10)]
  }

  function Number(s: string): nat {
    if s == [] then 0 else 10 * Number(s[..|s| - 1]) + DigitValue(s[|s| - 1])
  }

  function Power10(k: nat): nat {
    if k == 0 then 1 else 10 * Power10(k - 1)
  }

  lemma DigitRoundTrip(n: nat)
    requires n < 10
    ensures DigitValue(Digit(n)) == n
  {
  }

  lemma NumberSnoc(s: string, c: char)
    ensures Number(s + [c]) == 10 * Number(s) + DigitValue(c)
  {
    assert (s + [c])[..|s|] == s;
  }

  lemma {:induction false} NumberDecimal(n: nat)
    ensures Number(Decimal(n)) == n
    ensures '-' !in Decimal(n)
  {
    hide Number, Digit, DigitValue;
    DigitRoundTrip(n % 10);
    if n < 10 {
      NoNumber();
      NumberSnoc("", Digit(n));
      assert Decimal(n) == "" + [Digit(n)];
    } else {
      NumberDecimal(n / 10);
      NumberSnoc(Decimal(n / 10), Digit(n % 10));
    }
  }

  lemma NoNumber()
    ensures Number("") == 0
  {
  }

  lemma {:induction false} DecimalLength(n: nat, k: nat)
    requires n < Power10(k) && k > 0
    ensures |Decimal(n)| <= k
  {
    if n < 10 {
    } else {
      DecimalLength(n / 10, k - 1);
    }
  }

  /** Digit `i` of a number is the character for what stands at that power of ten, and the first is not zero unless the
      number is. */
  lemma {:induction false} DecimalDigitAt(n: nat, i: nat)
    requires i < |Decimal(n)|
    ensures Power10(|Decimal(n)| - 1 - i) > 0
    ensures Decimal(n)[i] == "0123456789"[n / Power10(|Decimal(n)| - 1 - i) % 10]
    ensures n > 0 && i == 0 ==> Decimal(n)[i] != '0'
  {
    if n < 10 {
      assert n / Power10(0) % 10 == n;
    } else if i == |Decimal(n)| - 1 {
      assert n / Power10(0) == n;
    } else {
      DecimalDigitAt(n / 10, i);
      var k := |Decimal(n)| - 2 - i;
      DivideTwice(n, 10, Power10(k));
      assert Power10(k + 1) == 10 * Power10(k);
    }
  }

  /** snprintf(id, size, "%llu-%llu", timestamp, counter) before any cut. */
  function GeneratedId(time: nat, counter: nat): (id: string)
    ensures id != ""
  {
    Decimal(time) + "-" + Decimal(counter)
  }

  /** The one dash of an id stands between the time and the counter. */
  lemma GeneratedIdReads(time: nat, counter: nat, k: nat)
    requires k < |GeneratedId(time, counter)| && GeneratedId(time, counter)[k] == '-'
    ensures Number(GeneratedId(time, counter)[..k]) == time && Number(GeneratedId(time, counter)[k + 1..]) == counter
  {
    hide Decimal, Number;
    var (a, b) := (Decimal(time), Decimal(counter));
    var id := GeneratedId(time, counter);
    NumberDecimal(time);
    NumberDecimal(counter);
    DashAt(a, b, k);
  }

  lemma DashAt(a: string, b: string, k: nat)
    requires '-' !in a && '-' !in b && k < |a + "-" + b| && (a + "-" + b)[k] == '-'
    ensures (a + "-" + b)[..k] == a && (a + "-" + b)[k + 1..] == b
  {
    var s := a + "-" + b;
    assert forall i :: 0 <= i < |a| ==> s[i] == a[i];
    assert forall i :: |a| < i < |s| ==> s[i] == b[i - |a| - 1];
    assert k == |a|;
  }

  /** `s` is how `n` is written in decimal. */
  predicate IsDecimal(s: string, n: nat) {
    && s != "" && Number(s) == n && (forall i :: 0 <= i < |s| ==> '0' <= s[i] <= '9')
    && (s[0] == '0' ==> n == 0 && |s| == 1)
  }

  /** `id` is time, dash, counter. */
  ghost predicate IsIdOf(id: string, time: nat, counter: nat) {
    exists k :: 0 <= k < |id| && id[k] == '-' && IsDecimal(id[..k], time) && IsDecimal(id[k + 1..], counter)
  }

  lemma DecimalIs(n: nat)
    ensures IsDecimal(Decimal(n), n)
  {
    hide Decimal, Number;
    NumberDecimal(n);
    forall i | 0 <= i < |Decimal(n)|
      ensures '0' <= Decimal(n)[i] <= '9'
    {
      DecimalDigitAt(n, i);
    }
    DecimalDigitAt(n, 0);
    ZeroDecimal();
  }

  lemma ZeroDecimal()
    ensures |Decimal(0)| == 1
  {
  }

  lemma GeneratedIdIs(time: nat, counter: nat)
    ensures IsIdOf(GeneratedId(time, counter), time, counter)
  {
    hide Decimal, IsDecimal;
    DecimalIs(time);
    DecimalIs(counter);
    var (id, k) := (GeneratedId(time, counter), |Decimal(time)|);
    assert id[k] == '-' && id[..k] == Decimal(time) && id[k + 1..] == Decimal(counter);
  }

  /** No id is ever cut to fit its 64 bytes. */
  lemma GeneratedIdFits(time: nat, counter: nat)
    requires time < COUNTER_LIMIT && counter < COUNTER_LIMIT
    ensures |GeneratedId(time, counter)| <= 41
  {
    assert Power10(5) == 10_0000;
    assert Power10(10) == 100_0000_0000;
    assert Power10(15) == 1000_0000_0000_0000;
    assert Power10(20) == 1_0000_0000_0000_0000_0000;
    DecimalLength(time, 20);
    DecimalLength(counter, 20);
  }

  /** The separator keeps the two numbers apart. */
  lemma GeneratedIdsDiffer(time: nat, counter: nat, time': nat, counter': nat)
    requires GeneratedId(time, counter) == GeneratedId(time', counter')
    ensures time == time' && counter == counter'
  {
    NumberDecimal(time);
    NumberDecimal(counter);
    NumberDecimal(time');
    NumberDecimal(counter');
    SplitAtDash(Decimal(time), Decimal(counter), Decimal(time'), Decimal(counter'));
  }

  lemma SplitAtDash(a: string, b: string, c: string, d: string)
    requires '-' !in a && '-' !in c && a + "-" + b == c + "-" + d
    ensures a == c && b == d
  {
    var s, t := a + "-" + b, c + "-" + d;
    assert s[|a|] == '-' && t[|c|] == '-';
    assert forall i :: 0 <= i < |a| ==> s[i] == a[i];
    assert forall i :: 0 <= i < |c| ==> t[i] == c[i];
    assert |a| == |c|;
    assert a == s[..|a|] && c == t[..|c|];
    assert b == s[|a| + 1..] && d == t[|c| + 1..];
  }
}

/** The store as an array of records with tombstones, and as a map of ordered lists. */
module MailModel {
  import opened Core
  import opened MessageIds

  const MAX_MESSAGES: nat := 1000
  const MAX_MAILBOX: nat := 63

  /** include/federated/service/mail.h:33-51 */
  datatype Message = Message(id: string, from: string, to: string, subject: string, timestamp: nat,
                             headers: seq<bv8>, body: seq<bv8>)

  datatype StoredMessage = StoredMessage(msg: Message, mailbox: string, deleted: bool)

  datatype Op =
    | Init
    | Cleanup
    | Append(mailbox: string, msg: Message, time: nat)
    | List(mailbox: string, limit: nat)
    | Fetch(mailbox: string, id: string)
    | Remove(mailbox: string, id: string)

  datatype Reply = Code(code: ErrorCode) | Listed(msgs: seq<Message>) | Fetched(msg: Message)

  /** strncpy into 64 bytes with a terminator. */
  function Truncated(name: string): (t: string)
    ensures t <= name && |t| == if |name| <= 63 then |name| else 63
  {
    if |name| <= MAX_MAILBOX then name else name[..MAX_MAILBOX]
  }

  /** The message as stored: it gets an id if it has none. */
  function WithId(msg: Message, time: nat, counter: nat): Message {
    if msg.id == "" then msg.(id := GeneratedId(time, counter)) else msg
  }

  function NextCounter(msg: Message, counter: nat): nat {
    if msg.id == "" then (counter + 1) % COUNTER_LIMIT else counter
  }

  function First<T>(s: seq<T>, n: nat): seq<T> {
    if n <= |s| then s[..n] else s
  }

  // ---------------------------------------------------------------- the array of records

  /** The slots in use, the flag, and the counter behind the ids. */
  datatype Store = Store(slots: seq<StoredMessage>, initialized: bool, counter: nat)

  predicate Matches(m: StoredMessage, mailbox: string, id: string) {
    !m.deleted && m.mailbox == mailbox && m.msg.id == id
  }

  /** The first slot that matches, the number of slots if there is none. */
  function FirstMatch(slots: seq<StoredMessage>, mailbox: string, id: string): (k: nat)
    ensures k <= |slots| && forall i :: 0 <= i < k ==> !Matches(slots[i], mailbox, id)
    ensures k < |slots| ==> Matches(slots[k], mailbox, id)
  {
    if slots == [] || Matches(slots[0], mailbox, id) then 0 else 1 + FirstMatch(slots[1..], mailbox, id)
  }

  /** The messages of a mailbox that are not deleted, in the order of their slots. */
  function Live(slots: seq<StoredMessage>, mailbox: string): (msgs: seq<Message>)
    ensures |msgs| <= |slots|
  {
    if slots == [] then []
    else
      var m := slots[|slots| - 1];
      Live(slots[..|slots| - 1], mailbox) + if !m.deleted && m.mailbox == mailbox then [m.msg] else []
  }

  function Deleted(slots: seq<StoredMessage>, k: nat): (t: seq<StoredMessage>)
    requires k < |slots|
    ensures |t| == |slots|
  {
    slots[k := slots[k].(deleted := true)]
  }

  function Step(s: Store, op: Op): Store {
    match op
    case Init => if s.initialized then s else Store([], true, s.counter)
    case Cleanup => Store([], false, s.counter)
    case Append(mailbox, msg, time) =>
      if !s.initialized || |s.slots| >= MAX_MESSAGES then s
      else Store(s.slots + [StoredMessage(WithId(msg, time, s.counter), Truncated(mailbox), false)], true,
                 NextCounter(msg, s.counter))
    case List(_, _) => s
    case Fetch(_, _) => s
    case Remove(mailbox, id) =>
      var k := FirstMatch(s.slots, mailbox, id);
      if !s.initialized || k == |s.slots| then s else s.(slots := Deleted(s.slots, k))
  }

  function Answer(s: Store, op: Op): Reply {
    if op.Init? || op.Cleanup? then Code(OK)
    else if !s.initialized then Code(ERR_INTERNAL)
    else match op
      case Append(_, _, _) => Code(if |s.slots| >= MAX_MESSAGES then ERR_INTERNAL else OK)
      case List(mailbox, limit) => Listed(First(Live(s.slots, mailbox), limit))
      case Fetch(mailbox, id) =>
        var k := FirstMatch(s.slots, mailbox, id);
        if k == |s.slots| then Code(ERR_IO) else Fetched(s.slots[k].msg)
      case Remove(mailbox, id) =>
        Code(if FirstMatch(s.slots, mailbox, id) == |s.slots| then ERR_IO else OK)
      case _ => Code(OK)
  }

  function Final(s: Store, ops: seq<Op>): Store {
    if ops == [] then s else Step(Final(s, ops[..|ops| - 1]), ops[|ops| - 1])
  }

  // ---------------------------------------------------------------- the map of lists

  /** Each mailbox an ordered list; `accepted` counts the appends since the store was opened. */
  datatype Mailboxes = Mailboxes(boxes: map<string, seq<Message>>, accepted: nat, open: bool, counter: nat)

  function Box(b: Mailboxes, mailbox: string): seq<Message> {
    if mailbox in b.boxes then b.boxes[mailbox] else []
  }

  function FirstWithId(msgs: seq<Message>, id: string): (j: nat)
    ensures j <= |msgs| && forall i :: 0 <= i < j ==> msgs[i].id != id
    ensures j < |msgs| ==> msgs[j].id == id
  {
    if msgs == [] || msgs[0].id == id then 0 else 1 + FirstWithId(msgs[1..], id)
  }

  function Without(msgs: seq<Message>, j: nat): seq<Message>
    requires j < |msgs|
  {
    msgs[..j] + msgs[j + 1..]
  }

  function BoxStep(b: Mailboxes, op: Op): Mailboxes {
    match op
    case Init => if b.open then b else Mailboxes(map[], 0, true, b.counter)
    case Cleanup => Mailboxes(map[], 0, false, b.counter)
    case Append(mailbox, msg, time) =>
      if !b.open || b.accepted >= MAX_MESSAGES then b
      else
        var name := Truncated(mailbox);
        Mailboxes(b.boxes[name := Box(b, name) + [WithId(msg, time, b.counter)]], b.accepted + 1, true,
                  NextCounter(msg, b.counter))
    case List(_, _) => b
    case Fetch(_, _) => b
    case Remove(mailbox, id) =>
      var j := FirstWithId(Box(b, mailbox), id);
      if !b.open || j == |Box(b, mailbox)| then b
      else b.(boxes := b.boxes[mailbox := Without(Box(b, mailbox), j)])
  }

  function BoxAnswer(b: Mailboxes, op: Op): Reply {
    if op.Init? || op.Cleanup? then Code(OK)
    else if !b.open then Code(ERR_INTERNAL)
    else match op
      case Append(_, _, _) => Code(if b.accepted >= MAX_MESSAGES then ERR_INTERNAL else OK)
      case List(mailbox, limit) => Listed(First(Box(b, mailbox), limit))
      case Fetch(mailbox, id) =>
        var j := FirstWithId(Box(b, mailbox), id);
        if j == |Box(b, mailbox)| then Code(ERR_IO) else Fetched(Box(b, mailbox)[j])
      case Remove(mailbox, id) =>
        Code(if FirstWithId(Box(b, mailbox), id) == |Box(b, mailbox)| then ERR_IO else OK)
      case _ => Code(OK)
  }

  function BoxFinal(b: Mailboxes, ops: seq<Op>): Mailboxes {
    if ops == [] then b else BoxStep(BoxFinal(b, ops[..|ops| - 1]), ops[|ops| - 1])
  }

  // ---------------------------------------------------------------- one refines the other

  ghost predicate Represents(s: Store, b: Mailboxes) {
    && s.initialized == b.open && s.counter == b.counter && |s.slots| == b.accepted
    && forall name :: Live(s.slots, name) == Box(b, name)
  }

  lemma {:induction false} LiveConcat(a: seq<StoredMessage>, b: seq<StoredMessage>, name: string)
    ensures Live(a + b, name) == Live(a, name) + Live(b, name)
    decreases |b|
  {
    if b == [] {
      assert a + b == a;
    } else {
      assert (a + b)[..|a + b| - 1] == a + b[..|b| - 1];
      LiveConcat(a, b[..|b| - 1], name);
    }
  }

  lemma {:induction false} LiveWithoutMatch(slots: seq<StoredMessage>, mailbox: string, id: string)
    requires forall i :: 0 <= i < |slots| ==> !Matches(slots[i], mailbox, id)
    ensures forall i :: 0 <= i < |Live(slots, mailbox)| ==> Live(slots, mailbox)[i].id != id
  {
    if slots == [] {
    } else {
      LiveWithoutMatch(slots[..|slots| - 1], mailbox, id);
    }
  }

  lemma LiveOne(m: StoredMessage, name: string)
    ensures Live([m], name) == if !m.deleted && m.mailbox == name then [m.msg] else []
  {
    assert [m][..0] == [];
  }

  lemma LiveAround(a: seq<StoredMessage>, m: StoredMessage, b: seq<StoredMessage>, name: string)
    ensures Live(a + [m] + b, name)
         == Live(a, name) + (if !m.deleted && m.mailbox == name then [m.msg] else []) + Live(b, name)
  {
    hide Live;
    LiveConcat(a + [m], b, name);
    LiveConcat(a, [m], name);
    LiveOne(m, name);
  }

  /** The scan over the slots and the search in the list find the same message, or nothing. */
  lemma SearchAgrees(slots: seq<StoredMessage>, mailbox: string, id: string)
    ensures var (k, j) := (FirstMatch(slots, mailbox, id), FirstWithId(Live(slots, mailbox), id));
            && (k == |slots| <==> j == |Live(slots, mailbox)|)
            && (k < |slots| ==> slots[k].msg == Live(slots, mailbox)[j] && j == |Live(slots[..k], mailbox)|)
  {
    hide Live, FirstMatch, FirstWithId;
    var k := FirstMatch(slots, mailbox, id);
    var msgs := Live(slots, mailbox);
    LiveWithoutMatch(slots[..k], mailbox, id);
    if k < |slots| {
      assert slots == slots[..k] + [slots[k]] + slots[k + 1..];
      LiveAround(slots[..k], slots[k], slots[k + 1..], mailbox);
      var front := Live(slots[..k], mailbox);
      assert msgs[|front|] == slots[k].msg;
      assert forall i :: 0 <= i < |front| ==> msgs[i] == front[i];
      assert FirstWithId(msgs, id) == |front|;
    } else {
      assert slots[..k] == slots;
    }
  }

  /** A tombstone takes its message out of its mailbox and leaves every other list as it is. */
  lemma DeletionAgrees(slots: seq<StoredMessage>, k: nat, name: string)
    requires k < |slots| && !slots[k].deleted
    ensures |Live(slots[..k], slots[k].mailbox)| < |Live(slots, slots[k].mailbox)|
    ensures Live(Deleted(slots, k), name)
         == if name == slots[k].mailbox then Without(Live(slots, name), |Live(slots[..k], name)|) else Live(slots, name)
  {
    hide Live;
    var (a, m, b) := (slots[..k], slots[k], slots[k + 1..]);
    assert slots == a + [m] + b;
    assert Deleted(slots, k) == a + [m.(deleted := true)] + b;
    LiveAround(a, m, b, name);
    LiveAround(a, m, b, m.mailbox);
    LiveAround(a, m.(deleted := true), b, name);
    if name == m.mailbox {
      assert Without(Live(slots, name), |Live(a, name)|) == Live(a, name) + Live(b, name);
    }
  }

  lemma AnswerAgrees(s: Store, b: Mailboxes, op: Op)
    requires Represents(s, b)
    ensures Answer(s, op) == BoxAnswer(b, op)
  {
    hide Live, FirstMatch, FirstWithId;
    if op.Fetch? || op.Remove? {
      SearchAgrees(s.slots, op.mailbox, op.id);
      assert Live(s.slots, op.mailbox) == Box(b, op.mailbox);
    } else if op.List? {
      assert Live(s.slots, op.mailbox) == Box(b, op.mailbox);
    }
  }

  lemma RemoveAgrees(s: Store, b: Mailboxes, op: Op)
    requires Represents(s, b) && op.Remove?
    ensures Represents(Step(s, op), BoxStep(b, op))
  {
    hide Live, FirstMatch, FirstWithId, Without, Deleted;
    SearchAgrees(s.slots, op.mailbox, op.id);
    var k := FirstMatch(s.slots, op.mailbox, op.id);
    assert Live(s.slots, op.mailbox) == Box(b, op.mailbox);
    if s.initialized && k < |s.slots| {
      var t, c := Step(s, op), BoxStep(b, op);
      forall name
        ensures Live(t.slots, name) == Box(c, name)
      {
        DeletionAgrees(s.slots, k, name);
        assert Live(s.slots, name) == Box(b, name);
      }
    }
  }

  lemma AppendAgrees(s: Store, b: Mailboxes, op: Op)
    requires Represents(s, b) && op.Append?
    ensures Represents(Step(s, op), BoxStep(b, op))
  {
    hide Live, Truncated, WithId, NextCounter;
    if s.initialized && |s.slots| < MAX_MESSAGES {
      var t, c := Step(s, op), BoxStep(b, op);
      var m := t.slots[|s.slots|];
      forall name
        ensures Live(t.slots, name) == Box(c, name)
      {
        LiveConcat(s.slots, [m], name);
        LiveOne(m, name);
        assert Live(s.slots, name) == Box(b, name);
      }
    }
  }

  lemma StepAgrees(s: Store, b: Mailboxes, op: Op)
    requires Represents(s, b)
    ensures Represents(Step(s, op), BoxStep(b, op))
  {
    match op
    case Append(_, _, _) => AppendAgrees(s, b, op);
    case Remove(_, _) => RemoveAgrees(s, b, op);
    case _ =>
  }

  /** Over every run, array and map stay in step and give the same answers. */
  lemma {:induction false} RunsAgree(s: Store, b: Mailboxes, ops: seq<Op>, i: nat)
    requires Represents(s, b) && i < |ops|
    ensures Represents(Final(s, ops[..i]), BoxFinal(b, ops[..i]))
    ensures Answer(Final(s, ops[..i]), ops[i]) == BoxAnswer(BoxFinal(b, ops[..i]), ops[i])
    decreases i
  {
    hide Step, BoxStep, Represents, Answer, BoxAnswer;
    if i > 0 {
      RunsAgree(s, b, ops, i - 1);
      StepAgrees(Final(s, ops[..i - 1]), BoxFinal(b, ops[..i - 1]), ops[i - 1]);
      assert ops[..i][..i - 1] == ops[..i - 1];
    } else {
      assert ops[..0] == [];
    }
    AnswerAgrees(Final(s, ops[..i]), BoxFinal(b, ops[..i]), ops[i]);
  }

  /** The store a program starts with. */
  function Fresh(): Store {
    Store([], false, 0)
  }

  /** Mailboxes before anything was appended. */
  function NoMailboxes(): Mailboxes {
    Mailboxes(map[], 0, false, 0)
  }

  lemma FreshIsEmpty()
    ensures Represents(Fresh(), NoMailboxes())
  {
  }

  /** So from the start of the program on the store answers every operation as the ordered lists would. */
  lemma ProgramsAgree(ops: seq<Op>, i: nat)
    requires i < |ops|
    ensures Answer(Final(Fresh(), ops[..i]), ops[i]) == BoxAnswer(BoxFinal(NoMailboxes(), ops[..i]), ops[i])
  {
    hide Represents, Answer, BoxAnswer, Final, BoxFinal;
    FreshIsEmpty();
    RunsAgree(Fresh(), NoMailboxes(), ops, i);
  }

  /** What an accepted append does to the lists: the message comes last in the mailbox of its name, or of the first 63
      characters of it, with nothing changed but an id that was missing, which time and counter make up. */
  lemma Appended(s: Store, mailbox: string, msg: Message, time: nat, name: string)
    requires s.initialized && |s.slots| < 1000
    ensures var t := Step(s, Append(mailbox, msg, time));
            && t.initialized && |t.slots| == |s.slots| + 1
            && var stored := t.slots[|s.slots|].msg;
            && Live(t.slots, name)
               == Live(s.slots, name)
                  + (if name == (if |mailbox| <= 63 then mailbox else mailbox[..63]) then [stored] else [])
            && stored.(id := msg.id) == msg
            && (msg.id != "" ==> stored.id == msg.id && t.counter == s.counter)
            && (msg.id == "" ==>
                  && IsIdOf(stored.id, time, s.counter)
                  && t.counter == (s.counter + 1) % 0x1_0000_0000_0000_0000)
  {
    hide Live, IsIdOf, GeneratedId;
    var t := Step(s, Append(mailbox, msg, time));
    var m := t.slots[|s.slots|];
    GeneratedIdIs(time, s.counter);
    LiveConcat(s.slots, [m], name);
    LiveOne(m, name);
  }

  // ---------------------------------------------------------------- what runs keep

  predicate ShortNames(slots: seq<StoredMessage>) {
    forall i :: 0 <= i < |slots| ==> |slots[i].mailbox| <= MAX_MAILBOX
  }

  lemma {:induction false} NamesStayShort(s: Store, ops: seq<Op>)
    requires ShortNames(s.slots)
    ensures ShortNames(Final(s, ops).slots)
    decreases |ops|
  {
    hide FirstMatch, Truncated, WithId;
    if ops == [] {
    } else {
      NamesStayShort(s, ops[..|ops| - 1]);
    }
  }

  lemma {:induction false} NoneUnderLongName(slots: seq<StoredMessage>, name: string)
    requires ShortNames(slots) && |name| > MAX_MAILBOX
    ensures Live(slots, name) == []
  {
    if slots == [] {
    } else {
      NoneUnderLongName(slots[..|slots| - 1], name);
    }
  }

  /** Whatever was appended under a name of more than 63 characters is never listed under it. */
  lemma LongNamesAreEmpty(ops: seq<Op>, name: string, limit: nat)
    requires |name| > 63
    ensures var s := Final(Fresh(), ops);
            Answer(s, List(name, limit)) == if s.initialized then Listed([]) else Code(ERR_INTERNAL)
  {
    NamesStayShort(Fresh(), ops);
    NoneUnderLongName(Final(Fresh(), ops).slots, name);
  }

  function Appends(ops: seq<Op>): (n: nat)
    ensures n <= |ops|
  {
    if ops == [] then 0 else Appends(ops[..|ops| - 1]) + if ops[|ops| - 1].Append? then 1 else 0
  }

  lemma {:induction false} SlotsFill(s: Store, ops: seq<Op>)
    requires s.initialized && |s.slots| <= MAX_MESSAGES && forall i :: 0 <= i < |ops| ==> !ops[i].Cleanup?
    ensures var t := Final(s, ops);
            var n := |s.slots| + Appends(ops);
            t.initialized && |t.slots| == if n < MAX_MESSAGES then n else MAX_MESSAGES
    decreases |ops|
  {
    hide FirstMatch, Truncated, WithId, NextCounter;
    if ops == [] {
    } else {
      SlotsFill(s, ops[..|ops| - 1]);
    }
  }

  /** Between the call that opens the store and the next clean-up the first 1000 appends are accepted and no other,
      however many messages are removed in between. */
  lemma FirstThousandAppends(s: Store, ops: seq<Op>, i: nat)
    requires !s.initialized && i < |ops| && ops[i].Append? && forall k :: 0 <= k < |ops| ==> !ops[k].Cleanup?
    ensures Answer(Final(Step(s, Init), ops[..i]), ops[i]) == Code(OK) <==> Appends(ops[..i]) < 1000
    ensures Answer(Final(Step(s, Init), ops[..i]), ops[i]) in {Code(OK), Code(ERR_INTERNAL)}
  {
    hide Final;
    SlotsFill(Step(s, Init), ops[..i]);
  }

  // ---------------------------------------------------------------- generated ids

  /** The id a step makes up, if it makes up one. */
  function MadeUp(s: Store, op: Op): seq<string> {
    if op.Append? && Answer(s, op) == Code(OK) && op.msg.id == "" then [GeneratedId(op.time, s.counter)] else []
  }

  function AllMadeUp(s: Store, ops: seq<Op>): seq<string> {
    if ops == [] then []
    else
      var front := ops[..|ops| - 1];
      AllMadeUp(s, front) + MadeUp(Final(s, front), ops[|ops| - 1])
  }

  ghost predicate Carries(id: string, counter: nat) {
    exists time: nat :: id == GeneratedId(time, counter)
  }

  lemma {:induction false} CountersPass(s: Store, ops: seq<Op>, i: nat)
    requires s.counter < COUNTER_LIMIT
    ensures Final(s, ops).counter == (s.counter + |AllMadeUp(s, ops)|) % COUNTER_LIMIT
    ensures i < |AllMadeUp(s, ops)| ==> Carries(AllMadeUp(s, ops)[i], (s.counter + i) % COUNTER_LIMIT)
    decreases |ops|
  {
    hide FirstMatch, Truncated, GeneratedId, Live;
    if ops == [] {
    } else {
      var front := ops[..|ops| - 1];
      CountersPass(s, front, i);
      NextPasses(s.counter, |AllMadeUp(s, front)|);
      StepCounts(Final(s, front), ops[|ops| - 1]);
    }
  }

  lemma StepCounts(s: Store, op: Op)
    ensures |MadeUp(s, op)| <= 1
    ensures Step(s, op).counter == if MadeUp(s, op) == [] then s.counter else (s.counter + 1) % COUNTER_LIMIT
    ensures MadeUp(s, op) != [] ==> Carries(MadeUp(s, op)[0], s.counter)
  {
    hide FirstMatch, Truncated, GeneratedId, Live;
  }

  lemma NextPasses(c: nat, n: nat)
    ensures ((c + n) % COUNTER_LIMIT + 1) % COUNTER_LIMIT == (c + (n + 1)) % COUNTER_LIMIT
  {
  }

  /** Fewer than 2^64 ids made up in a run are all different, across clean-ups and with any clock readings. */
  lemma MadeUpIdsDiffer(s: Store, ops: seq<Op>, i: nat, j: nat)
    requires s.counter < COUNTER_LIMIT && i < j < |AllMadeUp(s, ops)| <= 0x1_0000_0000_0000_0000
    ensures AllMadeUp(s, ops)[i] != AllMadeUp(s, ops)[j]
  {
    hide AllMadeUp, GeneratedId;
    CountersPass(s, ops, i);
    CountersPass(s, ops, j);
    var ids := AllMadeUp(s, ops);
    var (ci, cj) := ((s.counter + i) % COUNTER_LIMIT, (s.counter + j) % COUNTER_LIMIT);
    var ti: nat :| ids[i] == GeneratedId(ti, ci);
    var tj: nat :| ids[j] == GeneratedId(tj, cj);
    if ids[i] == ids[j] {
      GeneratedIdsDiffer(ti, ci, tj, cj);
      CountersDiffer(s.counter, i, j);
      assert false;
    }
  }

  lemma CountersDiffer(c: nat, i: nat, j: nat)
    requires c < COUNTER_LIMIT && i < j < COUNTER_LIMIT
    ensures (c + i) % COUNTER_LIMIT != (c + j) % COUNTER_LIMIT
  {
  }
}
