/** Chat in ttac.c as a step machine: any number of create_chat requests and polling
    clients, interleaved SQL statement by SQL statement over one chat table. */
module ChatSync {

  datatype Message = Message(id: int, group: int, user: int, content: string)

  /** Where a create_chat request is. `seen` records the table as its MAX read found it. */
  datatype Stage =
    | Begun
    | MaxRead(latest: int, seen: set<Message>)
    | Answered(latest: int, seen: set<Message>, own: Message)
    | Stopped

  datatype Sender = Sender(user: int, group: int, content: string, stage: Stage)

  /** Where a client's get_chatlist request is. */
  datatype Poll =
    | Idle
    | Asked(cursor: int)
    | Fetched(cursor: int, rows: set<Message>, seen: set<Message>)

  /** `held` is what the client has been sent, with repetitions; `synced` records the
      table as the select of the last answered poll found it. */
  datatype Client = Client(group: int, held: multiset<Message>, synced: set<Message>, poll: Poll)

  datatype State = State(chat: set<Message>, senders: map<int, Sender>, clients: map<int, Client>)

  datatype Action =
    | BeginChat(r: int, user: int, group: int, content: string)
    | SelectMax(r: int, latest: int)
    | InsertChat(r: int, id: int)
    | StopChat(r: int)
    | Connect(c: int, group: int)
    | Ask(c: int, cursor: int)
    | SelectAbove(c: int)
    | Receive(c: int)
    | StopPoll(c: int)

  function InGroup(chat: set<Message>, group: int): set<Message> {
    set m | m in chat && m.group == group
  }

  function Above(chat: set<Message>, cursor: int): set<Message> {
    set m | m in chat && m.id > cursor
  }

  function UpTo(chat: set<Message>, cursor: int): set<Message> {
    set m | m in chat && m.id <= cursor
  }

  function Held(x: Client): set<Message> {
    set m | m in x.held
  }

  /** MAX(idx) with -1 for NULL. */
  ghost predicate IsMax(latest: int, rows: set<Message>) {
    if rows == {} then latest == -1
    else (exists m :: m in rows && m.id == latest) && forall m :: m in rows ==> m.id <= latest
  }

  ghost predicate Init(s: State) {
    s.chat == {} && s.senders == map[] && s.clients == map[]
  }

  ghost predicate Enabled(s: State, a: Action) {
    match a
    case BeginChat(r, _, _, _) => r !in s.senders
    case SelectMax(r, latest) =>
      r in s.senders && s.senders[r].stage.Begun? && IsMax(latest, InGroup(s.chat, s.senders[r].group))
    case InsertChat(r, id) =>
      // auto-increment: ids are positive and grow in the order of the inserts
      r in s.senders && s.senders[r].stage.MaxRead? && id > 0 && forall m :: m in s.chat ==> m.id < id
    case StopChat(r) => r in s.senders && !s.senders[r].stage.Answered?
    case Connect(c, _) => c !in s.clients
    case Ask(c, _) => c in s.clients && s.clients[c].poll.Idle?
    case SelectAbove(c) => c in s.clients && s.clients[c].poll.Asked?
    case Receive(c) => c in s.clients && s.clients[c].poll.Fetched?
    case StopPoll(c) => c in s.clients && !s.clients[c].poll.Idle?
  }

  function NewMessage(x: Sender, id: int): Message {
    Message(id, x.group, x.user, x.content)
  }

  ghost function Apply(s: State, a: Action): State
    requires Enabled(s, a)
  {
    match a
    case BeginChat(r, user, group, content) =>
      s.(senders := s.senders[r := Sender(user, group, content, Begun)])
    case SelectMax(r, latest) =>
      s.(senders := s.senders[r := s.senders[r].(stage := MaxRead(latest, s.chat))])
    case InsertChat(r, id) =>
      var x := s.senders[r];
      var own := NewMessage(x, id);
      s.(chat := s.chat + {own},
         senders := s.senders[r := x.(stage := Answered(x.stage.latest, x.stage.seen, own))])
    case StopChat(r) =>
      s.(senders := s.senders[r := s.senders[r].(stage := Stopped)])
    case Connect(c, group) =>
      s.(clients := s.clients[c := Client(group, multiset{}, {}, Idle)])
    case Ask(c, cursor) =>
      s.(clients := s.clients[c := s.clients[c].(poll := Asked(cursor))])
    case SelectAbove(c) =>
      var x := s.clients[c];
      var rows := Above(InGroup(s.chat, x.group), x.poll.cursor);
      s.(clients := s.clients[c := x.(poll := Fetched(x.poll.cursor, rows, s.chat))])
    case Receive(c) =>
      var x := s.clients[c];
      s.(clients := s.clients[c := Client(x.group, x.held + multiset(x.poll.rows), x.poll.seen, Idle)])
    case StopPoll(c) =>
      s.(clients := s.clients[c := s.clients[c].(poll := Idle)])
  }

  // ----- the invariant -----

  /** `seen` is the table at some earlier time: what has come since has larger ids. */
  ghost predicate Earlier(seen: set<Message>, chat: set<Message>) {
    seen <= chat && forall m, n :: m in seen && n in chat && n !in seen ==> m.id < n.id
  }

  ghost predicate TableOk(chat: set<Message>) {
    && (forall m :: m in chat ==> m.id > 0)
    && forall m, n :: m in chat && n in chat && m.id == n.id ==> m == n
  }

  ghost predicate SenderOk(x: Sender, chat: set<Message>) {
    match x.stage
    case Begun => true
    case MaxRead(latest, seen) => Earlier(seen, chat) && IsMax(latest, InGroup(seen, x.group))
    case Answered(latest, seen, own) =>
      && Earlier(seen, chat) && IsMax(latest, InGroup(seen, x.group))
      && own in chat && own !in seen && own == NewMessage(x, own.id)
    case Stopped => true
  }

  ghost predicate ClientOk(x: Client, chat: set<Message>) {
    && Earlier(x.synced, chat)
    && match x.poll
       case Idle => true
       case Asked(_) => true
       case Fetched(cursor, rows, seen) =>
         Earlier(seen, chat) && x.synced <= seen && rows == Above(InGroup(seen, x.group), cursor)
  }

  ghost predicate Inv(s: State) {
    && TableOk(s.chat)
    && (forall r :: r in s.senders ==> SenderOk(s.senders[r], s.chat))
    && (forall c :: c in s.clients ==> ClientOk(s.clients[c], s.chat))
  }

  lemma InsertKeeps(seen: set<Message>, chat: set<Message>, own: Message)
    requires Earlier(seen, chat) && forall m :: m in chat ==> m.id < own.id
    ensures Earlier(seen, chat + {own})
  {
  }

  lemma InsertKeepsSender(x: Sender, chat: set<Message>, own: Message)
    requires SenderOk(x, chat) && forall m :: m in chat ==> m.id < own.id
    ensures SenderOk(x, chat + {own})
  {
    if x.stage.MaxRead? || x.stage.Answered? { InsertKeeps(x.stage.seen, chat, own); }
  }

  lemma InsertKeepsClient(x: Client, chat: set<Message>, own: Message)
    requires ClientOk(x, chat) && forall m :: m in chat ==> m.id < own.id
    ensures ClientOk(x, chat + {own})
  {
    InsertKeeps(x.synced, chat, own);
    if x.poll.Fetched? { InsertKeeps(x.poll.seen, chat, own); }
  }

  /** Every step of every request keeps the invariant. */
  lemma StepKeepsInv(s: State, a: Action)
    requires Inv(s) && Enabled(s, a)
    ensures Inv(Apply(s, a))
  {
    var s' := Apply(s, a);
    match a
    case InsertChat(r, id) =>
      var own := NewMessage(s.senders[r], id);
      forall q | q in s.senders ensures SenderOk(s.senders[q], s'.chat) {
        InsertKeepsSender(s.senders[q], s.chat, own);
      }
      forall c | c in s.clients ensures ClientOk(s.clients[c], s'.chat) {
        InsertKeepsClient(s.clients[c], s.chat, own);
      }
    case _ =>
  }

  // ----- runs -----

  ghost predicate Run(states: seq<State>, actions: seq<Action>) {
    && |states| == |actions| + 1 && Init(states[0])
    && forall i :: 0 <= i < |actions| ==>
         Enabled(states[i], actions[i]) && states[i + 1] == Apply(states[i], actions[i])
  }

  lemma {:induction false} RunKeepsInv(states: seq<State>, actions: seq<Action>, i: nat)
    requires Run(states, actions) && i < |states|
    ensures Inv(states[i])
    decreases i
  {
    if i > 0 {
      RunKeepsInv(states, actions, i - 1);
      StepKeepsInv(states[i - 1], actions[i - 1]);
    }
  }

  /** `seen` of a sender is the table at the very step of its MAX read. */
  lemma {:induction false} SeenAtMaxRead(states: seq<State>, actions: seq<Action>, i: nat, r: int) returns (j: nat)
    requires Run(states, actions) && i < |states| && r in states[i].senders
    requires states[i].senders[r].stage.MaxRead? || states[i].senders[r].stage.Answered?
    ensures j < i && actions[j] == SelectMax(r, states[i].senders[r].stage.latest)
    ensures states[j].chat == states[i].senders[r].stage.seen
    decreases i
  {
    j := i - 1;
    var a := actions[i - 1];
    assert states[i] == Apply(states[i - 1], a);
    if !(a.SelectMax? && a.r == r) { j := SeenAtMaxRead(states, actions, i - 1, r); }
  }

  /** The step is one of this client's polls. */
  predicate PollStep(a: Action, c: int) {
    match a
    case Ask(d, _) => d == c
    case SelectAbove(d) => d == c
    case Receive(d) => d == c
    case StopPoll(d) => d == c
    case _ => false
  }

  lemma Untouched(s: State, a: Action, c: int)
    requires Enabled(s, a) && c in Apply(s, a).clients
    requires !PollStep(a, c) && a != Connect(c, Apply(s, a).clients[c].group)
    ensures c in s.clients && Apply(s, a).clients[c] == s.clients[c]
  {
  }

  /** An asked poll was asked at some step, since when the client has not changed. */
  lemma {:induction false} AskedAt(states: seq<State>, actions: seq<Action>, i: nat, c: int) returns (ask: nat)
    requires Run(states, actions) && i < |states| && c in states[i].clients && states[i].clients[c].poll.Asked?
    ensures ask < i && actions[ask] == Ask(c, states[i].clients[c].poll.cursor) && c in states[ask].clients
    ensures states[i].clients[c] == states[ask].clients[c].(poll := states[i].clients[c].poll)
    decreases i
  {
    ask := i - 1;
    var a := actions[i - 1];
    assert states[i] == Apply(states[i - 1], a);
    if !(a.Ask? && a.c == c) {
      Untouched(states[i - 1], a, c);
      ask := AskedAt(states, actions, i - 1, c);
    }
  }

  /** A fetched poll selected at some step, from the table that `seen` records. */
  lemma {:induction false} SeenAtSelect(states: seq<State>, actions: seq<Action>, i: nat, c: int) returns (j: nat)
    requires Run(states, actions) && i < |states| && c in states[i].clients && states[i].clients[c].poll.Fetched?
    ensures j < i && actions[j] == SelectAbove(c) && states[j].chat == states[i].clients[c].poll.seen
    ensures c in states[j].clients && states[j].clients[c].poll == Asked(states[i].clients[c].poll.cursor)
    ensures states[i].clients[c] == states[j].clients[c].(poll := states[i].clients[c].poll)
    decreases i
  {
    j := i - 1;
    var a := actions[i - 1];
    assert states[i] == Apply(states[i - 1], a);
    if !(a.SelectAbove? && a.c == c) {
      Untouched(states[i - 1], a, c);
      j := SeenAtSelect(states, actions, i - 1, c);
    }
  }

  /** What a request was begun with. */
  lemma {:induction false} BegunAt(states: seq<State>, actions: seq<Action>, i: nat, r: int) returns (begin: nat)
    requires Run(states, actions) && i < |states| && r in states[i].senders
    ensures var x := states[i].senders[r];
            begin < i && actions[begin] == BeginChat(r, x.user, x.group, x.content)
    decreases i
  {
    begin := i - 1;
    assert states[i] == Apply(states[i - 1], actions[i - 1]);
    if r in states[i - 1].senders { begin := BegunAt(states, actions, i - 1, r); }
  }

  /** Under every interleaving, what a request inserts is the message it was begun with, and
      nothing else gets into the table or out of it. */
  lemma InsertsItsMessage(states: seq<State>, actions: seq<Action>, i: nat) returns (begin: nat)
    requires Run(states, actions) && i < |actions|
    ensures !actions[i].InsertChat? ==> states[i + 1].chat == states[i].chat
    ensures actions[i].InsertChat? ==>
              && begin < i && actions[begin].BeginChat? && actions[begin].r == actions[i].r
              && var b := actions[begin];
                 states[i + 1].chat == states[i].chat + {Message(actions[i].id, b.group, b.user, b.content)}
  {
    begin := 0;
    assert states[i + 1] == Apply(states[i], actions[i]);
    if actions[i].InsertChat? { begin := BegunAt(states, actions, i, actions[i].r); }
  }

  /** No request waits for another: a send can be answered, a poll fetched and received, and
      any of their statements may fail. */
  lemma CanGoOn(s: State, r: int, c: int, latest: int, id: int)
    requires forall m :: m in s.chat ==> m.id < id
    ensures r in s.senders && s.senders[r].stage == Begun && IsMax(latest, InGroup(s.chat, s.senders[r].group)) ==>
              Enabled(s, SelectMax(r, latest))
    ensures r in s.senders && s.senders[r].stage.MaxRead? && id > 0 ==> Enabled(s, InsertChat(r, id))
    ensures c in s.clients && s.clients[c].poll == Idle ==> Enabled(s, Ask(c, latest))
    ensures c in s.clients && s.clients[c].poll.Asked? ==> Enabled(s, SelectAbove(c))
    ensures c in s.clients && s.clients[c].poll.Fetched? ==> Enabled(s, Receive(c))
    ensures r in s.senders && (s.senders[r].stage == Begun || s.senders[r].stage.MaxRead?) ==> Enabled(s, StopChat(r))
    ensures c in s.clients && s.clients[c].poll != Idle ==> Enabled(s, StopPoll(c))
  {
  }

  /** Under every interleaving, an answered sender's `latest` is the largest id that its group
      had at some step, or -1 for none; it lies below the id of the sender's own message,
      which is in the table; and every message of the group up to it was already there
      at that step. */
  lemma AnsweredSender(states: seq<State>, actions: seq<Action>, i: nat, r: int) returns (read: nat)
    requires Run(states, actions) && i < |states|
    requires r in states[i].senders && states[i].senders[r].stage.Answered?
    ensures read < i && actions[read] == SelectMax(r, states[i].senders[r].stage.latest)
    ensures var x, chat := states[i].senders[r], states[i].chat;
            && x.stage.own in chat && x.stage.own == Message(x.stage.own.id, x.group, x.user, x.content)
            && x.stage.latest < x.stage.own.id
            && (forall m :: m in chat && m.group == x.group && m.id <= x.stage.latest ==> m in states[read].chat)
            && (forall m :: m in states[read].chat && m.group == x.group ==> m.id <= x.stage.latest)
            && (x.stage.latest == -1
                || exists m :: m in states[read].chat && m.group == x.group && m.id == x.stage.latest)
  {
    read := SeenAtMaxRead(states, actions, i, r);
    RunKeepsInv(states, actions, i);
    var x, chat := states[i].senders[r], states[i].chat;
    assert SenderOk(x, chat);
    var before := InGroup(x.stage.seen, x.group);
    assert forall m :: m in states[read].chat && m.group == x.group ==> m in before;
    if before != {} { var m :| m in before && m.id == x.stage.latest; }
    forall n | n in chat && n !in x.stage.seen ensures x.stage.latest < n.id {
      if before != {} { var m :| m in before && m.id == x.stage.latest; }
    }
  }

  // ----- clients that poll from the largest id they hold -----

  /** Each message of the group once, and nothing else. */
  ghost predicate HoldsExactly(x: Client) {
    x.held == multiset(InGroup(x.synced, x.group))
  }

  ghost predicate LoyalOk(x: Client) {
    && HoldsExactly(x)
    && match x.poll
       case Idle => true
       case Asked(cursor) => IsMax(cursor, InGroup(x.synced, x.group))
       case Fetched(_, rows, seen) => rows == InGroup(seen - x.synced, x.group)
  }

  /** The cursor is the largest id that the client holds, or -1. */
  ghost predicate FromMax(s: State, a: Action, c: int) {
    a.Ask? && a.c == c ==> c in s.clients && IsMax(a.cursor, Held(s.clients[c]))
  }

  lemma MaxOfHeld(x: Client, cursor: int)
    requires HoldsExactly(x) && IsMax(cursor, Held(x))
    ensures IsMax(cursor, InGroup(x.synced, x.group))
  {
    assert Held(x) == InGroup(x.synced, x.group);
  }

  /** The rows above such a cursor are exactly the ones the client does not have yet. */
  lemma AboveIsNew(x: Client, chat: set<Message>)
    requires TableOk(chat) && ClientOk(x, chat) && LoyalOk(x) && x.poll.Asked?
    ensures Above(InGroup(chat, x.group), x.poll.cursor) == InGroup(chat - x.synced, x.group)
  {
    var cursor, mine := x.poll.cursor, InGroup(x.synced, x.group);
    forall m | m in chat && m.group == x.group ensures m.id > cursor <==> m !in x.synced {
      if m in x.synced {
        assert m in mine;
      } else if mine != {} {
        var n :| n in mine && n.id == cursor;
      }
    }
  }

  /** Receiving them leaves every message of the group held once. */
  lemma ReceiveHolds(x: Client, rows: set<Message>, seen: set<Message>)
    requires HoldsExactly(x) && x.synced <= seen && rows == InGroup(seen - x.synced, x.group)
    ensures x.held + multiset(rows) == multiset(InGroup(seen, x.group))
  {
    var mine := InGroup(x.synced, x.group);
    assert mine * rows == {} && mine + rows == InGroup(seen, x.group);
    assert multiset(mine) + multiset(rows) == multiset(mine + rows);
  }

  lemma StepKeepsLoyal(s: State, a: Action, c: int)
    requires Inv(s) && Enabled(s, a) && c in s.clients && LoyalOk(s.clients[c]) && FromMax(s, a, c)
    ensures c in Apply(s, a).clients && LoyalOk(Apply(s, a).clients[c])
  {
    var x := s.clients[c];
    if a == Receive(c) {
      ReceiveHolds(x, x.poll.rows, x.poll.seen);
    } else if a == SelectAbove(c) {
      AboveIsNew(x, s.chat);
    } else if a.Ask? && a.c == c {
      MaxOfHeld(x, a.cursor);
    }
  }

  lemma {:induction false} RunKeepsLoyal(states: seq<State>, actions: seq<Action>, i: nat, c: int)
    requires Run(states, actions) && i < |states| && c in states[i].clients
    requires forall n :: 0 <= n < i ==> FromMax(states[n], actions[n], c)
    ensures LoyalOk(states[i].clients[c])
    decreases i
  {
    RunKeepsInv(states, actions, i - 1);
    assert states[i] == Apply(states[i - 1], actions[i - 1]);
    if c in states[i - 1].clients {
      RunKeepsLoyal(states, actions, i - 1, c);
      StepKeepsLoyal(states[i - 1], actions[i - 1], c);
    }
  }

  /** Under every interleaving, a client that polls from the largest id it holds has,
      after each answer, every message of its group that was in the table when the poll
      selected, once each, and no other. */
  lemma SyncedClient(states: seq<State>, actions: seq<Action>, i: nat, c: int) returns (select: nat)
    requires Run(states, actions) && i < |actions| && actions[i] == Receive(c)
    requires forall n :: 0 <= n < i ==> FromMax(states[n], actions[n], c)
    ensures select < i && actions[select] == SelectAbove(c)
    ensures c in states[i + 1].clients
    ensures var after := states[i + 1].clients[c];
            forall m :: after.held[m] == if m in states[select].chat && m.group == after.group then 1 else 0
  {
    select := SeenAtSelect(states, actions, i, c);
    RunKeepsLoyal(states, actions, i + 1, c);
    assert states[i + 1] == Apply(states[i], actions[i]);
  }

  // ----- clients that poll from anywhere -----

  /** Under every interleaving, whatever cursor a client polls from, the answer leaves it with
      each message of its group exactly once if and only if it held, when the poll
      selected, exactly the messages up to that cursor, once each. */
  lemma CursorServesIff(states: seq<State>, actions: seq<Action>, i: nat, c: int)
    returns (ask: nat, select: nat)
    requires Run(states, actions) && i < |actions| && actions[i] == Receive(c)
    ensures ask < select < i && actions[select] == SelectAbove(c) && actions[ask].Ask? && actions[ask].c == c
    ensures c in states[ask].clients && c in states[select].clients && c in states[i + 1].clients
    ensures states[ask].clients[c].held == states[select].clients[c].held
    ensures states[ask].clients[c].group == states[select].clients[c].group
    ensures var x := states[select].clients[c];
            var rows := InGroup(states[select].chat, x.group);
            (states[i + 1].clients[c].held == multiset(rows)) <==> (x.held == multiset(UpTo(rows, actions[ask].cursor)))
  {
    select := SeenAtSelect(states, actions, i, c);
    ask := AskedAt(states, actions, select, c);
    RunKeepsInv(states, actions, i);
    assert ClientOk(states[i].clients[c], states[i].chat);
    assert states[i + 1] == Apply(states[i], actions[i]);
    ReceiveCompletes(states[select].clients[c].held, InGroup(states[select].chat, states[select].clients[c].group),
                     actions[ask].cursor);
  }

  lemma ReceiveCompletes(held: multiset<Message>, rows: set<Message>, cursor: int)
    ensures held + multiset(Above(rows, cursor)) == multiset(rows) <==> held == multiset(UpTo(rows, cursor))
  {
    var up, above := UpTo(rows, cursor), Above(rows, cursor);
    assert up + above == rows && up * above == {};
    assert multiset(up) + multiset(above) == multiset(up + above);
    if held + multiset(above) == multiset(up) + multiset(above) {
      assert held == held + multiset(above) - multiset(above) == multiset(up);
    }
  }

  lemma {:induction false} AnsweredStays(states: seq<State>, actions: seq<Action>, i: nat, j: nat, r: int)
    requires Run(states, actions) && i <= j < |states| && r in states[i].senders && states[i].senders[r].stage.Answered?
    ensures r in states[j].senders && states[j].senders[r] == states[i].senders[r]
    decreases j - i
  {
    if i < j {
      AnsweredStays(states, actions, i, j - 1, r);
      assert states[j] == Apply(states[j - 1], actions[j - 1]);
    }
  }

  /** A client that polls from the `latest` answered to a send in its group, such as its own,
      is served if and only if it held, when it asked, exactly the messages that the
      group had at the MAX read of that send. */
  lemma AdoptedLatestIff(states: seq<State>, actions: seq<Action>, i: nat, c: int, r: int)
    returns (read: nat, ask: nat, select: nat)
    requires Run(states, actions) && i < |actions| && actions[i] == Receive(c)
    ensures ask < select < i && actions[select] == SelectAbove(c) && actions[ask].Ask? && actions[ask].c == c
    ensures c in states[ask].clients && c in states[select].clients && c in states[i + 1].clients
    ensures Adopts(states[ask], actions[ask], r) ==>
              var x, group := states[ask].clients[c], states[ask].clients[c].group;
              && read < ask && actions[read] == SelectMax(r, actions[ask].cursor)
              && ((states[i + 1].clients[c].held == multiset(InGroup(states[select].chat, group)))
                  <==> (x.held == multiset(InGroup(states[read].chat, group))))
  {
    ask, select := CursorServesIff(states, actions, i, c);
    read := 0;
    if Adopts(states[ask], actions[ask], r) {
      read := SeenAtMaxRead(states, actions, ask, r);
      AnsweredStays(states, actions, ask, select, r);
      var x := states[ask].senders[r];
      RunKeepsInv(states, actions, select);
      assert SenderOk(states[select].senders[r], states[select].chat);
      assert states[read].chat == x.stage.seen;
      UpToLatest(x.stage.seen, states[select].chat, x.group, x.stage.latest);
    }
  }

  /** The cursor is the `latest` that was answered to request `r`, in the client's group. */
  ghost predicate Adopts(s: State, a: Action, r: int) {
    && a.Ask? && a.c in s.clients && r in s.senders && s.senders[r].stage.Answered?
    && s.senders[r].group == s.clients[a.c].group && a.cursor == s.senders[r].stage.latest
  }

  lemma UpToLatest(seen: set<Message>, chat: set<Message>, group: int, latest: int)
    requires TableOk(chat) && Earlier(seen, chat) && IsMax(latest, InGroup(seen, group))
    ensures UpTo(InGroup(chat, group), latest) == InGroup(seen, group)
  {
    var before := InGroup(seen, group);
    forall m | m in chat && m.group == group ensures m.id <= latest <==> m in seen {
      if m in seen {
        assert m in before;
      } else if before != {} {
        var n :| n in before && n.id == latest;
      }
    }
  }

  // ----- what is skipped stays lost -----

  /** The client lacks a message and holds a later one, and no poll of it is about to
      fetch the message. */
  ghost predicate Skipped(x: Client, m: Message) {
    && m !in x.held && (exists h :: h in x.held && h.id > m.id)
    && match x.poll
       case Idle => true
       case Asked(cursor) => cursor > m.id
       case Fetched(_, rows, _) => m !in rows
  }

  lemma StepKeepsSkipped(s: State, a: Action, c: int, m: Message)
    requires Enabled(s, a) && c in s.clients && Skipped(s.clients[c], m) && FromMax(s, a, c)
    ensures c in Apply(s, a).clients && Skipped(Apply(s, a).clients[c], m)
  {
    var x := s.clients[c];
    var h :| h in x.held && h.id > m.id;
    assert h in Held(x);
    assert c in Apply(s, a).clients && h in Apply(s, a).clients[c].held;
  }

  /** From then on, polling from the largest id never brings it. */
  lemma {:induction false} SkippedForEver(states: seq<State>, actions: seq<Action>, n: nat, i: nat, c: int, m: Message)
    requires Run(states, actions) && n <= i < |states| && c in states[n].clients && Skipped(states[n].clients[c], m)
    requires forall k :: n <= k < i ==> FromMax(states[k], actions[k], c)
    ensures c in states[i].clients && m !in states[i].clients[c].held && Skipped(states[i].clients[c], m)
    decreases i - n
  {
    if n < i {
      SkippedForEver(states, actions, n, i - 1, c, m);
      StepKeepsSkipped(states[i - 1], actions[i - 1], c, m);
    }
  }

  const FIRST := Message(1, 5, 10, "first")
  const OWN := Message(2, 5, 20, "own")

  /** A client that has not polled yet sends a message and then polls from the `latest` of
      its answer: it gets its own message and skips the one before it. */
  lemma AdoptingLatestSkips() returns (states: seq<State>, actions: seq<Action>)
    ensures Run(states, actions) && |actions| == 10 && Adopts(states[7], actions[7], 2)
    ensures states[10].chat == {FIRST, OWN} && 1 in states[10].clients
    ensures states[10].clients[1].held == multiset{OWN} && Skipped(states[10].clients[1], FIRST)
  {
    states, actions := TwoSends();
    states, actions := Then(states, actions, Ask(1, 1));
    states, actions := Then(states, actions, SelectAbove(1));
    var s := states[9];
    assert Above(InGroup({FIRST, OWN}, 5), 1) == {OWN};
    states, actions := Then(states, actions, Receive(1));
    var x := states[10].clients[1];
    assert x.held == multiset({OWN}) == multiset{OWN};
    assert OWN in x.held;
  }

  lemma Then(states: seq<State>, actions: seq<Action>, a: Action) returns (states': seq<State>, actions': seq<Action>)
    requires Run(states, actions) && Enabled(states[|actions|], a)
    ensures states' == states + [Apply(states[|actions|], a)] && actions' == actions + [a] && Run(states', actions')
  {
    states', actions' := states + [Apply(states[|actions|], a)], actions + [a];
  }

  lemma TwoSends() returns (states: seq<State>, actions: seq<Action>)
    ensures Run(states, actions) && |actions| == 7
    ensures states[7].chat == {FIRST, OWN}
    ensures states[7].clients == map[1 := Client(5, multiset{}, {}, Idle)]
    ensures 2 in states[7].senders && states[7].senders[2] == Sender(20, 5, "own", Answered(1, {FIRST}, OWN))
  {
    states, actions := [State({}, map[], map[])], [];
    states, actions := Then(states, actions, Connect(1, 5));
    states, actions := Then(states, actions, BeginChat(1, 10, 5, "first"));
    assert InGroup({}, 5) == {};
    states, actions := Then(states, actions, SelectMax(1, -1));
    states, actions := Then(states, actions, InsertChat(1, 1));
    assert states[4].chat == {FIRST};
    states, actions := Then(states, actions, BeginChat(2, 20, 5, "own"));
    assert InGroup({FIRST}, 5) == {FIRST};
    states, actions := Then(states, actions, SelectMax(2, 1));
    states, actions := Then(states, actions, InsertChat(2, 2));
  }
}
