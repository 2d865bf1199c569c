/** Groups and membership in ttac.c as a step machine: create_group and join_group
    requests, interleaved SQL statement by SQL statement. Every create_group request runs
    on a connection that it opened itself. */
module Groups {

  /** `request` records whose statement inserted the row. */
  datatype Member = Member(user: int, group: int, request: int)

  /** A create_group request. `made` records the group that its first insert made. */
  datatype CreateStage =
    | Opened
    | Inserted(made: int)
    | GotId(made: int, group: int)
    | Created(made: int, group: int)
    | StoppedBefore
    | StoppedBetween(made: int)

  /** A join_group request. */
  datatype JoinStage = Asked | Allowed | Added | Refused | JoinStopped

  datatype Request =
    | Create(user: int, connection: int, create: CreateStage)
    | Join(requester: int, target: int, group: int, join: JoinStage)

  /** `owners` is project_group; `lastIds` is LAST_INSERT_ID() of every connection;
      `makers` records the request that inserted a group. */
  datatype State = State(owners: map<int, int>, members: set<Member>, lastIds: map<int, int>,
                         requests: map<int, Request>, makers: map<int, int>)

  datatype Action =
    | BeginCreate(r: int, user: int, connection: int)
    | InsertGroup(r: int, idx: int)
    | SelectLastId(r: int)
    | InsertOwner(r: int)
    | BeginJoin(r: int, requester: int, target: int, group: int)
    | SelectOwner(r: int)
    | InsertMember(r: int)
    | Stop(r: int)

  const NOBODY := -1

  predicate BetweenInserts(x: CreateStage) {
    x.Inserted? || x.GotId?
  }

  ghost predicate Init(s: State) {
    s == State(map[], {}, map[], map[], map[])
  }

  ghost predicate Enabled(s: State, a: Action) {
    match a
    case BeginCreate(r, _, connection) => r !in s.requests && connection !in s.lastIds
    case InsertGroup(r, idx) =>
      // auto-increment
      r in s.requests && s.requests[r].Create? && s.requests[r].create.Opened?
      && forall g :: g in s.owners ==> g < idx
    case SelectLastId(r) =>
      r in s.requests && s.requests[r].Create? && s.requests[r].create.Inserted?
      && s.requests[r].connection in s.lastIds
    case InsertOwner(r) => r in s.requests && s.requests[r].Create? && s.requests[r].create.GotId?
    case BeginJoin(r, _, _, _) => r !in s.requests
    case SelectOwner(r) => r in s.requests && s.requests[r].Join? && s.requests[r].join.Asked?
    case InsertMember(r) => r in s.requests && s.requests[r].Join? && s.requests[r].join.Allowed?
    case Stop(r) =>
      r in s.requests
      && (s.requests[r].Create? ==> s.requests[r].create.Opened? || BetweenInserts(s.requests[r].create))
      && (s.requests[r].Join? ==> s.requests[r].join.Asked? || s.requests[r].join.Allowed?)
  }

  /** No such user, or no group of this owner with this number: no row is inserted. */
  predicate MayAdd(owners: map<int, int>, requester: int, target: int, group: int) {
    target != NOBODY && group in owners && owners[group] == requester
  }

  ghost function Apply(s: State, a: Action): State
    requires Enabled(s, a)
  {
    match a
    case BeginCreate(r, user, connection) =>
      s.(requests := s.requests[r := Create(user, connection, Opened)], lastIds := s.lastIds[connection := 0])
    case InsertGroup(r, idx) =>
      var x := s.requests[r];
      s.(owners := s.owners[idx := x.user], makers := s.makers[idx := r],
         lastIds := s.lastIds[x.connection := idx],
         requests := s.requests[r := x.(create := Inserted(idx))])
    case SelectLastId(r) =>
      var x := s.requests[r];
      s.(requests := s.requests[r := x.(create := GotId(x.create.made, s.lastIds[x.connection]))])
    case InsertOwner(r) =>
      var x := s.requests[r];
      s.(members := s.members + {Member(x.user, x.create.group, r)},
         requests := s.requests[r := x.(create := Created(x.create.made, x.create.group))])
    case BeginJoin(r, requester, target, group) =>
      s.(requests := s.requests[r := Join(requester, target, group, Asked)])
    case SelectOwner(r) =>
      var x := s.requests[r];
      var stage := if MayAdd(s.owners, x.requester, x.target, x.group) then Allowed else Refused;
      s.(requests := s.requests[r := x.(join := stage)])
    case InsertMember(r) =>
      var x := s.requests[r];
      s.(members := s.members + {Member(x.target, x.group, r)}, requests := s.requests[r := x.(join := Added)])
    case Stop(r) =>
      s.(requests := s.requests[r := StopRequest(s.requests[r])])
  }

  function StopRequest(x: Request): Request {
    match x
    case Create(user, connection, Inserted(made)) => Create(user, connection, StoppedBetween(made))
    case Create(user, connection, GotId(made, _)) => Create(user, connection, StoppedBetween(made))
    case Create(user, connection, _) => Create(user, connection, StoppedBefore)
    case Join(requester, target, group, _) => Join(requester, target, group, JoinStopped)
  }

  // ----- the invariant -----

  ghost predicate MadeBy(s: State, r: int, user: int, g: int) {
    g in s.owners && s.owners[g] == user && g in s.makers && s.makers[g] == r
  }

  /** A creating request and its own connection agree on the group that it made. */
  ghost predicate CreateOk(s: State, r: int, x: Request)
    requires x.Create?
  {
    && x.connection in s.lastIds
    && match x.create
       case Opened => true
       case Inserted(made) => MadeBy(s, r, x.user, made) && s.lastIds[x.connection] == made
       case GotId(made, group) => MadeBy(s, r, x.user, made) && group == made
       case Created(made, group) => MadeBy(s, r, x.user, made) && group == made && Member(x.user, made, r) in s.members
       case StoppedBefore => true
       case StoppedBetween(made) => MadeBy(s, r, x.user, made)
  }

  ghost predicate JoinOk(s: State, r: int, x: Request)
    requires x.Join?
  {
    && (x.join.Allowed? || x.join.Added? ==> MayAdd(s.owners, x.requester, x.target, x.group))
    && (x.join.Added? ==> Member(x.target, x.group, r) in s.members)
  }

  ghost predicate RequestOk(s: State, r: int) {
    r in s.requests && match s.requests[r]
                       case Create(_, _, _) => CreateOk(s, r, s.requests[r])
                       case Join(_, _, _, _) => JoinOk(s, r, s.requests[r])
  }

  /** A group's row was inserted by the maker, which is still between its inserts, or
      stopped there, or has made the owner a member. */
  ghost predicate GroupOk(s: State, g: int) {
    && g in s.makers && g in s.owners && s.makers[g] in s.requests
    && var x := s.requests[s.makers[g]];
       && x.Create? && x.user == s.owners[g]
       && match x.create
          case Opened => false
          case Inserted(made) => made == g
          case GotId(made, _) => made == g
          case Created(made, _) => made == g
          case StoppedBefore => false
          case StoppedBetween(made) => made == g
  }

  /** A membership row was inserted by the request that made the group, for its owner, or
      by a join request of the group's owner. */
  ghost predicate MemberOk(s: State, m: Member) {
    && m.group in s.owners && m.request in s.requests
    && match s.requests[m.request]
       case Create(user, _, create) =>
         create.Created? && create.group == m.group && m.user == user && user == s.owners[m.group]
       case Join(requester, target, group, join) =>
         join.Added? && group == m.group && target == m.user && requester == s.owners[m.group]
  }

  ghost predicate Inv(s: State) {
    && (forall r :: r in s.requests ==> RequestOk(s, r))
    && (forall g :: g in s.owners ==> GroupOk(s, g))
    && (forall m :: m in s.members ==> MemberOk(s, m))
    && (forall r, q :: r in s.requests && q in s.requests && s.requests[r].Create? && s.requests[q].Create? && r != q
          ==> s.requests[r].connection != s.requests[q].connection)
  }

  /** Every step of every request keeps the invariant. */
  lemma StepKeepsInv(s: State, a: Action)
    requires Inv(s) && Enabled(s, a)
    ensures Inv(Apply(s, a))
  {
    var s' := Apply(s, a);
    forall r | r in s'.requests ensures RequestOk(s', r) {
      if r in s.requests { assert RequestOk(s, r); }
    }
    forall g | g in s'.owners ensures GroupOk(s', g) {
      if g in s.owners { assert GroupOk(s, g); }
    }
    forall m | m in s'.members ensures MemberOk(s', m) {
      if m in s.members { assert MemberOk(s, m); }
    }
  }

  // ----- runs -----

  ghost predicate Run(states: seq<State>, actions: seq<Action>) {
    && |states| == |actions| + 1 && Init(states[0])
    && forall i :: 0 <= i < |actions| ==>
         Enabled(states[i], actions[i]) && states[i + 1] == Apply(states[i], actions[i])
  }

  lemma {:induction false} RunKeepsInv(states: seq<State>, actions: seq<Action>, i: nat)
    requires Run(states, actions) && i < |states|
    ensures Inv(states[i])
    decreases i
  {
    if i > 0 {
      RunKeepsInv(states, actions, i - 1);
      StepKeepsInv(states[i - 1], actions[i - 1]);
    }
  }

  /** Under every interleaving, create_group joins its user, the one it began for, to the very
      group that this request inserted, some steps before, with that user as its owner. */
  lemma JoinsOwnGroup(states: seq<State>, actions: seq<Action>, i: nat, r: int) returns (begin: nat, j: nat)
    requires Run(states, actions) && i < |actions| && actions[i] == InsertOwner(r)
    ensures begin < j < i && actions[begin].BeginCreate? && actions[begin].r == r
    ensures actions[j].InsertGroup? && actions[j].r == r
    ensures var user, g := actions[begin].user, actions[j].idx;
            && g in states[j + 1].owners && states[j + 1].owners == states[j].owners[g := user]
            && g in states[i + 1].owners && states[i + 1].owners[g] == user
            && states[i + 1].members == states[i].members + {Member(user, g, r)}
  {
    RunKeepsInv(states, actions, i);
    assert RequestOk(states[i], r);
    j := InsertedBefore(states, actions, i, r);
    begin := BegunAt(states, actions, j, r);
    BegunStays(states, actions, j, i, r, actions[begin]);
    assert states[j + 1] == Apply(states[j], actions[j]);
  }

  // ----- what a request was begun with -----

  /** The users, the group and the connection of a request say how it began. */
  function BeginOf(x: Request, r: int): Action {
    match x
    case Create(user, connection, _) => BeginCreate(r, user, connection)
    case Join(requester, target, group, _) => BeginJoin(r, requester, target, group)
  }

  lemma {:induction false} BegunAt(states: seq<State>, actions: seq<Action>, i: nat, r: int) returns (begin: nat)
    requires Run(states, actions) && i < |states| && r in states[i].requests
    ensures begin < i && actions[begin] == BeginOf(states[i].requests[r], r)
    decreases i
  {
    begin := i - 1;
    BeginKept(states[i - 1], actions[i - 1], r);
    if r in states[i - 1].requests { begin := BegunAt(states, actions, i - 1, r); }
  }

  lemma BeginKept(s: State, a: Action, r: int)
    requires Enabled(s, a)
    ensures r in s.requests ==>
              r in Apply(s, a).requests && BeginOf(Apply(s, a).requests[r], r) == BeginOf(s.requests[r], r)
    ensures r !in s.requests && r in Apply(s, a).requests ==> a == BeginOf(Apply(s, a).requests[r], r)
  {
  }

  predicate BegunAs(s: State, r: int, a: Action) {
    r in s.requests && BeginOf(s.requests[r], r) == a
  }

  /** They do not change. */
  lemma {:induction false} BegunStays(states: seq<State>, actions: seq<Action>, i: nat, j: nat, r: int, a: Action)
    requires Run(states, actions) && i <= j < |states| && BegunAs(states[i], r, a)
    ensures BegunAs(states[j], r, a)
    decreases j - i
  {
    if i < j {
      BegunStays(states, actions, i, j - 1, r, a);
      StepKeepsBegun(states, actions, j - 1, r, a);
    }
  }

  lemma StepKeepsBegun(states: seq<State>, actions: seq<Action>, i: nat, r: int, a: Action)
    requires Run(states, actions) && i < |actions| && BegunAs(states[i], r, a)
    ensures BegunAs(states[i + 1], r, a)
  {
    assert states[i + 1] == Apply(states[i], actions[i]);
  }

  // ----- join requests -----

  /** The select allows the insert exactly when the user exists and the requester owns the
      group, and changes nothing else. */
  lemma SelectAllowsIff(s: State, r: int)
    requires Enabled(s, SelectOwner(r))
    ensures var x, s' := s.requests[r], Apply(s, SelectOwner(r));
            && r in s'.requests && s'.requests[r].Join?
            && (s'.requests[r].join == Allowed <==>
                  x.target != -1 && x.group in s.owners && s.owners[x.group] == x.requester)
            && (s'.requests[r].join == Allowed || s'.requests[r].join == Refused)
            && s'.owners == s.owners && s'.members == s.members
  {
  }

  /** Under every interleaving, an allowed request puts in just the row that it was begun
      for, and that row stays. */
  lemma JoinInserts(states: seq<State>, actions: seq<Action>, begin: nat, i: nat, n: nat,
                    r: int, requester: int, target: int, group: int)
    requires Run(states, actions) && begin < i < n < |states|
    requires actions[begin] == BeginJoin(r, requester, target, group) && actions[i] == InsertMember(r)
    ensures states[i + 1].members == states[i].members + {Member(target, group, r)}
    ensures Member(target, group, r) in states[n].members
  {
    assert states[begin + 1] == Apply(states[begin], actions[begin]);
    BegunStays(states, actions, begin + 1, i, r, actions[begin]);
    assert states[i + 1] == Apply(states[i], actions[i]);
    MembersStay(states, actions, i + 1, n, Member(target, group, r));
  }

  /** A request that has ended as added has its row, now and later. */
  lemma AddedHasRow(states: seq<State>, actions: seq<Action>, i: nat, n: nat, r: int)
    requires Run(states, actions) && i <= n < |states|
    requires r in states[i].requests && states[i].requests[r].Join? && states[i].requests[r].join == Added
    ensures Member(states[i].requests[r].target, states[i].requests[r].group, r) in states[n].members
  {
    RunKeepsInv(states, actions, i);
    assert RequestOk(states[i], r);
    MembersStay(states, actions, i, n, Member(states[i].requests[r].target, states[i].requests[r].group, r));
  }

  lemma {:induction false} MembersStay(states: seq<State>, actions: seq<Action>, i: nat, n: nat, m: Member)
    requires Run(states, actions) && i <= n < |states| && m in states[i].members
    ensures m in states[n].members
    decreases n - i
  {
    if i < n {
      MembersStay(states, actions, i, n - 1, m);
      assert states[n] == Apply(states[n - 1], actions[n - 1]);
    }
  }

  /** No other statement touches these tables. */
  lemma TablesChangeOnlySo(s: State, a: Action)
    requires Enabled(s, a)
    ensures !a.InsertGroup? ==> Apply(s, a).owners == s.owners
    ensures !a.InsertOwner? && !a.InsertMember? ==> Apply(s, a).members == s.members
  {
  }

  /** No request waits for another: whatever its next statement is, it can be taken. */
  lemma CanGoOn(s: State, r: int)
    requires Inv(s) && r in s.requests
    ensures match s.requests[r]
            case Create(_, _, Opened) =>
              forall g :: (forall h :: h in s.owners ==> h < g) ==> Enabled(s, InsertGroup(r, g))
            case Create(_, _, Inserted(_)) => Enabled(s, SelectLastId(r))
            case Create(_, _, GotId(_, _)) => Enabled(s, InsertOwner(r))
            case Join(_, _, _, Asked) => Enabled(s, SelectOwner(r))
            case Join(_, _, _, Allowed) => Enabled(s, InsertMember(r))
            case _ => true
  {
    assert RequestOk(s, r);
  }

  /** A statement of an unfinished request may fail, and new requests may come at any time. */
  lemma CanFailOrBegin(s: State, r: int, user: int, connection: int, requester: int, target: int, group: int)
    ensures r in s.requests && s.requests[r].Create?
              && (s.requests[r].create == Opened || s.requests[r].create.Inserted? || s.requests[r].create.GotId?) ==>
              Enabled(s, Stop(r))
    ensures r in s.requests && s.requests[r].Join? && (s.requests[r].join == Asked || s.requests[r].join == Allowed) ==>
              Enabled(s, Stop(r))
    ensures r !in s.requests && connection !in s.lastIds ==> Enabled(s, BeginCreate(r, user, connection))
    ensures r !in s.requests ==> Enabled(s, BeginJoin(r, requester, target, group))
  {
  }

  /** A whole run: user 7 makes group 1 and adds user 8 to it. */
  lemma OwnerAddsUser() returns (states: seq<State>, actions: seq<Action>)
    ensures Run(states, actions) && |actions| == 7
    ensures states[7].owners == map[1 := 7]
    ensures states[7].members == {Member(7, 1, 100), Member(8, 1, 101)}
  {
    actions := [BeginCreate(100, 7, 50), InsertGroup(100, 1), SelectLastId(100), InsertOwner(100),
                BeginJoin(101, 7, 8, 1), SelectOwner(101), InsertMember(101)];
    var s0 := State(map[], {}, map[], map[], map[]);
    var s1 := Apply(s0, actions[0]);
    var s2 := Apply(s1, actions[1]);
    var s3 := Apply(s2, actions[2]);
    var s4 := Apply(s3, actions[3]);
    var s5 := Apply(s4, actions[4]);
    var s6 := Apply(s5, actions[5]);
    var s7 := Apply(s6, actions[6]);
    states := [s0, s1, s2, s3, s4, s5, s6, s7];
  }

  lemma {:induction false} InsertedBefore(states: seq<State>, actions: seq<Action>, i: nat, r: int) returns (j: nat)
    requires Run(states, actions) && i < |states| && r in states[i].requests && states[i].requests[r].Create?
    requires BetweenInserts(states[i].requests[r].create)
    ensures j < i && actions[j] == InsertGroup(r, states[i].requests[r].create.made)
    decreases i
  {
    j := i - 1;
    var a := actions[i - 1];
    assert states[i] == Apply(states[i - 1], a);
    if !(a.InsertGroup? && a.r == r) { j := InsertedBefore(states, actions, i - 1, r); }
  }

  /** Under every interleaving, a group's owner is a member, unless the request that made
      the group is between its two inserts or has stopped there. */
  lemma OwnerIsMember(states: seq<State>, actions: seq<Action>, i: nat, g: int)
    requires Run(states, actions) && i < |states| && g in states[i].owners
    ensures var s := states[i];
            && g in s.makers && s.makers[g] in s.requests && s.requests[s.makers[g]].Create?
            && (|| Member(s.owners[g], g, s.makers[g]) in s.members
                || BetweenInserts(s.requests[s.makers[g]].create)
                || s.requests[s.makers[g]].create == StoppedBetween(g))
  {
    RunKeepsInv(states, actions, i);
    assert GroupOk(states[i], g);
    assert RequestOk(states[i], states[i].makers[g]);
  }

  /** Under every interleaving, a member is the owner, put there by the request that made
      the group, or was put there by a join request of the owner. */
  lemma MembersComeFromOwner(states: seq<State>, actions: seq<Action>, i: nat, m: Member)
    requires Run(states, actions) && i < |states| && m in states[i].members
    ensures var s := states[i];
            && m.group in s.owners && m.group in s.makers && m.request in s.requests
            && match s.requests[m.request]
               case Create(user, _, create) =>
                 user == m.user == s.owners[m.group] && m.request == s.makers[m.group]
                 && create == Created(m.group, m.group)
               case Join(requester, target, group, join) =>
                 requester == s.owners[m.group] && target == m.user && group == m.group && join == Added
  {
    RunKeepsInv(states, actions, i);
    assert MemberOk(states[i], m) && GroupOk(states[i], m.group) && RequestOk(states[i], m.request);
  }

  /** The connection has to be the request's own: on a shared one, an insert in between
      hands the request the other one's group. */
  lemma SharedConnectionMixesUp(s: State, r: int, q: int, g: int, h: int)
    requires r != q && Enabled(s, InsertGroup(r, g)) && Enabled(s, InsertGroup(q, h)) && g < h
    requires s.requests[r].connection == s.requests[q].connection
    ensures var s1 := Apply(s, InsertGroup(r, g));
            Enabled(s1, InsertGroup(q, h)) &&
            var s2 := Apply(s1, InsertGroup(q, h));
            Enabled(s2, SelectLastId(r)) && Apply(s2, SelectLastId(r)).requests[r].create == GotId(g, h)
  {
  }
}
