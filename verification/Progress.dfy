/** Progress rows in ttac.c as a step machine: post_progress requests whose SELECT and
    whose UPDATE or INSERT interleave, and what get_progress answers in between. */
module Progress {

  datatype Row = Row(user: int, number: int)

  /** A post_progress request; `found` is what its SELECT saw. */
  datatype Stage = Opened | Selected(found: bool) | Written | Stopped

  datatype Post = Post(user: int, number: int, stage: Stage)

  /** The rows are in the order of their primary keys. */
  datatype State = State(rows: seq<Row>, posts: map<int, Post>)

  datatype Action =
    | Begin(r: int, user: int, number: int)
    | Select(r: int)
    | Write(r: int)
    | Stop(r: int)      // a statement fails

  predicate HasRow(rows: seq<Row>, user: int) {
    exists i :: 0 <= i < |rows| && rows[i].user == user
  }

  /** UPDATE: every row of the user. */
  function Updated(rows: seq<Row>, user: int, number: int): (r: seq<Row>)
    ensures |r| == |rows|
    ensures forall i :: 0 <= i < |rows| ==> r[i] == if rows[i].user == user then Row(user, number) else rows[i]
  {
    seq(|rows|, i requires 0 <= i < |rows| => if rows[i].user == user then Row(user, number) else rows[i])
  }

  /** What get_progress answers: the number of the first row, or 0. */
  function Answer(rows: seq<Row>, user: int): int {
    if rows == [] then 0
    else if rows[0].user == user then rows[0].number
    else Answer(rows[1..], user)
  }

  ghost predicate Init(s: State) {
    s == State([], map[])
  }

  ghost predicate Enabled(s: State, a: Action) {
    match a
    case Begin(r, _, _) => r !in s.posts
    case Select(r) => r in s.posts && s.posts[r].stage.Opened?
    case Write(r) => r in s.posts && s.posts[r].stage.Selected?
    case Stop(r) => r in s.posts && !s.posts[r].stage.Written?
  }

  ghost function Apply(s: State, a: Action): State
    requires Enabled(s, a)
  {
    match a
    case Begin(r, user, number) => s.(posts := s.posts[r := Post(user, number, Opened)])
    case Select(r) => s.(posts := s.posts[r := s.posts[r].(stage := Selected(HasRow(s.rows, s.posts[r].user)))])
    case Write(r) =>
      var x := s.posts[r];
      State(if x.stage.found then Updated(s.rows, x.user, x.number) else s.rows + [Row(x.user, x.number)],
            s.posts[r := x.(stage := Written)])
    case Stop(r) => s.(posts := s.posts[r := s.posts[r].(stage := Stopped)])
  }

  ghost predicate Run(states: seq<State>, actions: seq<Action>) {
    && |states| == |actions| + 1 && Init(states[0])
    && forall i :: 0 <= i < |actions| ==>
         Enabled(states[i], actions[i]) && states[i + 1] == Apply(states[i], actions[i])
  }

  // ----- what a post does -----

  /** A post that found a row sets all rows of its user; one that found none adds a row at the
      end. Nothing else touches the table. */
  lemma WriteIs(s: State, a: Action)
    requires Enabled(s, a)
    ensures !a.Write? ==> Apply(s, a).rows == s.rows
    ensures a.Write? && !s.posts[a.r].stage.found ==>
              Apply(s, a).rows == s.rows + [Row(s.posts[a.r].user, s.posts[a.r].number)]
    ensures a.Write? && s.posts[a.r].stage.found ==>
              && |Apply(s, a).rows| == |s.rows|
              && forall i :: 0 <= i < |s.rows| ==>
                   Apply(s, a).rows[i] == if s.rows[i].user == s.posts[a.r].user
                                          then Row(s.posts[a.r].user, s.posts[a.r].number) else s.rows[i]
  {
  }

  /** It writes for the user and with the number that it was begun with. */
  lemma {:induction false} BegunAt(states: seq<State>, actions: seq<Action>, i: nat, r: int) returns (begin: nat)
    requires Run(states, actions) && i < |states| && r in states[i].posts
    ensures begin < i && actions[begin] == Begin(r, states[i].posts[r].user, states[i].posts[r].number)
    decreases i
  {
    begin := i - 1;
    assert states[i] == Apply(states[i - 1], actions[i - 1]);
    if r in states[i - 1].posts { begin := BegunAt(states, actions, i - 1, r); }
  }

  /** No post waits for another, and any of its statements may fail. */
  lemma CanGoOn(s: State, r: int, user: int, number: int)
    ensures r !in s.posts ==> Enabled(s, Begin(r, user, number))
    ensures r in s.posts && s.posts[r].stage == Opened ==> Enabled(s, Select(r))
    ensures r in s.posts && s.posts[r].stage.Selected? ==> Enabled(s, Write(r))
    ensures r in s.posts && (s.posts[r].stage == Opened || s.posts[r].stage.Selected?) ==> Enabled(s, Stop(r))
  {
  }

  // ----- the property and its exact condition -----

  ghost predicate OneRowEach(rows: seq<Row>) {
    forall i, j :: 0 <= i < j < |rows| ==> rows[i].user != rows[j].user
  }

  /** Step `i` is a write for `user`. */
  ghost predicate WritesFor(states: seq<State>, actions: seq<Action>, i: int, user: int)
    requires Run(states, actions)
  {
    0 <= i < |actions| && actions[i].Write? && states[i].posts[actions[i].r].user == user
  }

  /** The post that writes at `j` saw no row at `i`, and another write for the same user
      comes in between. */
  ghost predicate Overtaken(states: seq<State>, actions: seq<Action>, i: int, k: int, j: int)
    requires Run(states, actions)
  {
    && 0 <= i < k < j < |actions| && actions[j].Write? && actions[i] == Select(actions[j].r)
    && !HasRow(states[i].rows, states[j].posts[actions[j].r].user)
    && WritesFor(states, actions, k, states[j].posts[actions[j].r].user)
  }

  // ----- single steps -----

  lemma RowsStay(s: State, a: Action, user: int)
    requires Enabled(s, a) && HasRow(s.rows, user)
    ensures HasRow(Apply(s, a).rows, user)
  {
    var i :| 0 <= i < |s.rows| && s.rows[i].user == user;
    assert Apply(s, a).rows[i].user == user;
  }

  /** A row for a user first appears with a write for that user. */
  lemma RowsComeFromWrites(s: State, a: Action, user: int)
    requires Enabled(s, a) && !HasRow(s.rows, user) && HasRow(Apply(s, a).rows, user)
    ensures a.Write? && s.posts[a.r].user == user
  {
    var rows := Apply(s, a).rows;
    var i :| 0 <= i < |rows| && rows[i].user == user;
    if i < |s.rows| { assert s.rows[i].user != user; }
  }

  // ----- stretches of a run -----

  lemma {:induction false} RowsStayFor(states: seq<State>, actions: seq<Action>, i: nat, j: nat, user: int)
    requires Run(states, actions) && i <= j < |states| && HasRow(states[i].rows, user)
    ensures HasRow(states[j].rows, user)
    decreases j - i
  {
    if i < j {
      RowsStayFor(states, actions, i, j - 1, user);
      RowsStay(states[j - 1], actions[j - 1], user);
    }
  }

  lemma {:induction false} FirstWrite(states: seq<State>, actions: seq<Action>, i: nat, j: nat, user: int)
    returns (k: nat)
    requires Run(states, actions) && i <= j < |states|
    requires !HasRow(states[i].rows, user) && HasRow(states[j].rows, user)
    ensures i <= k < j && WritesFor(states, actions, k, user)
    decreases j - i
  {
    if HasRow(states[j - 1].rows, user) {
      k := FirstWrite(states, actions, i, j - 1, user);
    } else {
      k := j - 1;
      RowsComeFromWrites(states[k], actions[k], user);
    }
  }

  /** A post that is between its two statements selected at some step, once. */
  lemma {:induction false} SelectedAt(states: seq<State>, actions: seq<Action>, j: nat, r: int) returns (i: nat)
    requires Run(states, actions) && j < |states| && r in states[j].posts && states[j].posts[r].stage.Selected?
    ensures i < j && actions[i] == Select(r)
    ensures states[j].posts[r].stage.found == HasRow(states[i].rows, states[j].posts[r].user)
    ensures forall n :: 0 <= n < j && n != i ==> actions[n] != Select(r)
    decreases j
  {
    assert states[j] == Apply(states[j - 1], actions[j - 1]);
    if actions[j - 1] == Select(r) {
      i := j - 1;
      NotSelectedBefore(states, actions, i, r);
    } else {
      i := SelectedAt(states, actions, j - 1, r);
    }
  }

  lemma {:induction false} NotSelectedBefore(states: seq<State>, actions: seq<Action>, j: nat, r: int)
    requires Run(states, actions) && j < |states|
    requires r in states[j].posts ==> states[j].posts[r].stage.Opened?
    ensures forall n :: 0 <= n < j ==> actions[n] != Select(r)
    decreases j
  {
    if j > 0 {
      assert states[j] == Apply(states[j - 1], actions[j - 1]);
      NotSelectedBefore(states, actions, j - 1, r);
    }
  }

  /** After a write there is a row for its user. */
  lemma WriteLeavesRow(states: seq<State>, actions: seq<Action>, k: nat, user: int)
    requires Run(states, actions) && WritesFor(states, actions, k, user)
    ensures HasRow(states[k + 1].rows, user)
  {
    var x := states[k].posts[actions[k].r];
    if x.stage.found {
      var i := SelectedAt(states, actions, k, actions[k].r);
      RowsStayFor(states, actions, i, k, user);
      RowsStay(states[k], actions[k], user);
    } else {
      assert states[k + 1].rows[|states[k].rows|].user == user;
    }
  }

  // ----- one row per user, exactly -----

  /** No user ever gets a second row exactly when no post that saw no row is overtaken by
      another write for the same user. */
  lemma OneRowIff(states: seq<State>, actions: seq<Action>)
    requires Run(states, actions)
    ensures (forall n :: 0 <= n < |states| ==> OneRowEach(states[n].rows))
              <==> !exists i, k, j :: Overtaken(states, actions, i, k, j)
  {
    if exists i, k, j :: Overtaken(states, actions, i, k, j) {
      var i, k, j :| Overtaken(states, actions, i, k, j);
      OvertakenDoubles(states, actions, i, k, j);
    } else {
      forall n | 0 <= n < |states| ensures OneRowEach(states[n].rows) {
        if !OneRowEach(states[n].rows) {
          var i, k, j := DoubledByOvertaken(states, actions, n);
        }
      }
    }
  }

  lemma OvertakenDoubles(states: seq<State>, actions: seq<Action>, i: nat, k: nat, j: nat)
    requires Run(states, actions) && Overtaken(states, actions, i, k, j)
    ensures !OneRowEach(states[j + 1].rows)
  {
    var r, user := actions[j].r, states[j].posts[actions[j].r].user;
    WriteLeavesRow(states, actions, k, user);
    RowsStayFor(states, actions, k + 1, j, user);
    var at := SelectedAt(states, actions, j, r);
    assert at == i;
    var n :| 0 <= n < |states[j].rows| && states[j].rows[n].user == user;
    var rows := states[j + 1].rows;
    assert rows[n].user == user && rows[|rows| - 1].user == user && n < |rows| - 1;
  }

  /** A second row comes from a post that was overtaken. */
  lemma {:induction false} DoubledByOvertaken(states: seq<State>, actions: seq<Action>, n: nat)
    returns (i: nat, k: nat, j: nat)
    requires Run(states, actions) && n < |states| && !OneRowEach(states[n].rows)
    ensures j < n && Overtaken(states, actions, i, k, j)
    decreases n
  {
    j := n - 1;
    var a := actions[j];
    assert states[n] == Apply(states[j], a);
    if !OneRowEach(states[j].rows) {
      i, k, j := DoubledByOvertaken(states, actions, j);
    } else {
      SecondRow(states[j], a);
      var user := states[j].posts[a.r].user;
      i := SelectedAt(states, actions, j, a.r);
      k := FirstWrite(states, actions, i, j, user);
    }
  }

  lemma SecondRow(s: State, a: Action)
    requires Enabled(s, a) && OneRowEach(s.rows) && !OneRowEach(Apply(s, a).rows)
    ensures a.Write? && !s.posts[a.r].stage.found && HasRow(s.rows, s.posts[a.r].user)
  {
    var rows := Apply(s, a).rows;
    assert forall x :: 0 <= x < |s.rows| ==> s.rows[x].user == rows[x].user;
    var i, j :| 0 <= i < j < |rows| && rows[i].user == rows[j].user;
    assert i < |s.rows| == j;
    assert s.rows[i].user == rows[j].user;
  }

  // ----- what get_progress answers -----

  /** The newest write for a user among the first `n` steps, or -1. */
  ghost function LastWrite(states: seq<State>, actions: seq<Action>, n: nat, user: int): (k: int)
    requires Run(states, actions) && n <= |actions|
    ensures k == -1 || (k < n && WritesFor(states, actions, k, user))
    decreases n
  {
    if n == 0 then -1
    else if WritesFor(states, actions, n - 1, user) then n - 1
    else LastWrite(states, actions, n - 1, user)
  }

  /** The number of that write, or 0. */
  ghost function LastWritten(states: seq<State>, actions: seq<Action>, n: nat, user: int): int
    requires Run(states, actions) && n <= |actions|
  {
    var k := LastWrite(states, actions, n, user);
    if k == -1 then 0 else Number(states, actions, k)
  }

  /** The number that the write at `k` posts. */
  ghost function Number(states: seq<State>, actions: seq<Action>, k: nat): int
    requires Run(states, actions) && k < |actions| && actions[k].Write?
  {
    states[k].posts[actions[k].r].number
  }

  lemma {:induction false} AnswerFirst(rows: seq<Row>, user: int, i: nat)
    requires i <= |rows| && forall j :: 0 <= j < i ==> rows[j].user != user
    requires i < |rows| ==> rows[i].user == user
    ensures Answer(rows, user) == if i == |rows| then 0 else rows[i].number
    decreases |rows|
  {
    if i > 0 {
      assert forall j :: 0 < j < |rows| ==> rows[1..][j - 1] == rows[j];
      AnswerFirst(rows[1..], user, i - 1);
    }
  }

  lemma AnswerUnchanged(s: State, a: Action, user: int)
    requires Enabled(s, a) && (a.Write? ==> s.posts[a.r].user != user)
    ensures Answer(Apply(s, a).rows, user) == Answer(s.rows, user)
  {
    var before, after := s.rows, Apply(s, a).rows;
    var i := FirstRow(before, user);
    AnswerFirst(before, user, i);
    if i == |before| && |after| > |before| { AnswerFirst(after, user, |after|); } else { AnswerFirst(after, user, i); }
  }

  lemma {:induction false} FirstRow(rows: seq<Row>, user: int) returns (i: nat)
    ensures i <= |rows| && (forall j :: 0 <= j < i ==> rows[j].user != user) && (i < |rows| ==> rows[i].user == user)
    decreases |rows|
  {
    if rows == [] || rows[0].user == user {
      i := 0;
    } else {
      i := FirstRow(rows[1..], user);
      assert forall j :: 0 < j < |rows| ==> rows[1..][j - 1] == rows[j];
      i := i + 1;
    }
  }

  /** What an answer is from the user's last write on: what it was right after that. */
  lemma {:induction false} AnswerSinceWrite(states: seq<State>, actions: seq<Action>, n: nat, user: int)
    requires Run(states, actions) && n < |states|
    ensures var k := LastWrite(states, actions, n, user);
            Answer(states[n].rows, user) == if k == -1 then 0 else Answer(states[k + 1].rows, user)
    decreases n
  {
    if n > 0 && !WritesFor(states, actions, n - 1, user) {
      AnswerSinceWrite(states, actions, n - 1, user);
      AnswerUnchanged(states[n - 1], actions[n - 1], user);
    }
  }

  /** A write shows up in the answer, unless it is overtaken: then the answer stays. */
  lemma AnswerAfterWrite(states: seq<State>, actions: seq<Action>, k: nat, user: int)
    requires Run(states, actions) && WritesFor(states, actions, k, user)
    ensures Answer(states[k + 1].rows, user) ==
              if IsOvertaken(states, actions, k) then Answer(states[k].rows, user) else Number(states, actions, k)
  {
    var before, after := states[k].rows, states[k + 1].rows;
    var x := states[k].posts[actions[k].r];
    var select := SelectedAt(states, actions, k, actions[k].r);
    assert states[k + 1] == Apply(states[k], actions[k]);
    var i := FirstRow(before, user);
    AnswerFirst(before, user, i);
    AnswerFirst(after, user, i);
    if x.stage.found {
      RowsStayFor(states, actions, select, k, user);
    } else if HasRow(before, user) {
      var m := FirstWrite(states, actions, select, k, user);
      assert Overtaken(states, actions, select, m, k);
    } else {
      NotOvertakenWithoutRow(states, actions, k, user);
    }
  }

  ghost predicate IsOvertaken(states: seq<State>, actions: seq<Action>, k: int)
    requires Run(states, actions)
  {
    exists i, m :: Overtaken(states, actions, i, m, k)
  }

  lemma NotOvertakenWithoutRow(states: seq<State>, actions: seq<Action>, k: nat, user: int)
    requires Run(states, actions) && WritesFor(states, actions, k, user) && !HasRow(states[k].rows, user)
    ensures !IsOvertaken(states, actions, k)
  {
    forall i, m ensures !Overtaken(states, actions, i, m, k) {
      if Overtaken(states, actions, i, m, k) {
        WriteLeavesRow(states, actions, m, user);
        RowsStayFor(states, actions, m + 1, k, user);
      }
    }
  }

  /** In every run, the answer is the number of the user's last successful write if and only
      if that write was not overtaken, or posted what the answer was already; and 0 before
      the first write. */
  lemma AnswerIff(states: seq<State>, actions: seq<Action>, n: nat, user: int)
    requires Run(states, actions) && n < |states|
    ensures var k := LastWrite(states, actions, n, user);
            if k == -1 then Answer(states[n].rows, user) == LastWritten(states, actions, n, user) == 0
            else
              (Answer(states[n].rows, user) == LastWritten(states, actions, n, user))
              <==> (!IsOvertaken(states, actions, k) || Answer(states[k].rows, user) == Number(states, actions, k))
  {
    AnswerSinceWrite(states, actions, n, user);
    var k := LastWrite(states, actions, n, user);
    if k != -1 { AnswerAfterWrite(states, actions, k, user); }
  }

  /** While no user has a second row, the answer is the number of the last write. */
  lemma AnswerIsLastWritten(states: seq<State>, actions: seq<Action>, n: nat, user: int)
    requires Run(states, actions) && n < |states|
    requires forall i :: 0 <= i <= n ==> OneRowEach(states[i].rows)
    ensures Answer(states[n].rows, user) == LastWritten(states, actions, n, user)
  {
    AnswerIff(states, actions, n, user);
    var k := LastWrite(states, actions, n, user);
    if k != -1 && IsOvertaken(states, actions, k) {
      var i, m :| Overtaken(states, actions, i, m, k);
      OvertakenDoubles(states, actions, i, m, k);
    }
  }

  // ----- posts that do not overlap -----

  /** Between its select and its write a post stays between its two statements. */
  lemma {:induction false} StaysSelected(states: seq<State>, actions: seq<Action>, k: nat, j: nat, r: int)
    requires Run(states, actions) && k <= j < |states| && r in states[j].posts && states[j].posts[r].stage.Selected?
    requires forall n :: k <= n < j ==> actions[n] != Select(r)
    ensures r in states[k].posts && states[k].posts[r] == states[j].posts[r]
    ensures forall n :: k <= n < j ==> actions[n] != Write(r)
    decreases j - k
  {
    if k < j {
      assert states[j] == Apply(states[j - 1], actions[j - 1]);
      StaysSelected(states, actions, k, j - 1, r);
    }
  }

  /** No two posts of this user are ever both between their two statements. */
  ghost predicate NeverOverlap(states: seq<State>, user: int) {
    forall n, r, q :: 0 <= n < |states| && r in states[n].posts && q in states[n].posts && r != q
      && states[n].posts[r].stage.Selected? && states[n].posts[q].stage.Selected?
      ==> !(states[n].posts[r].user == states[n].posts[q].user == user)
  }

  lemma NoOverlapNotOvertaken(states: seq<State>, actions: seq<Action>, k: nat, user: int)
    requires Run(states, actions) && NeverOverlap(states, user)
    requires WritesFor(states, actions, k, user)
    ensures !IsOvertaken(states, actions, k)
  {
    forall i, m ensures !Overtaken(states, actions, i, m, k) {
      if Overtaken(states, actions, i, m, k) {
        var r := actions[k].r;
        var at := SelectedAt(states, actions, k, r);
        assert at == i;
        StaysSelected(states, actions, m, k, r);
      }
    }
  }

  /** If the posts of a user do not overlap, the answer is always that user's last number,
      whatever the posts of others do. */
  lemma AnswerWithoutOverlap(states: seq<State>, actions: seq<Action>, n: nat, user: int)
    requires Run(states, actions) && n < |states| && NeverOverlap(states, user)
    ensures Answer(states[n].rows, user) == LastWritten(states, actions, n, user)
  {
    AnswerIff(states, actions, n, user);
    var k := LastWrite(states, actions, n, user);
    if k != -1 { NoOverlapNotOvertaken(states, actions, k, user); }
  }

  /** If no user's posts overlap, no user gets a second row. */
  lemma NoOverlapIsEnough(states: seq<State>, actions: seq<Action>)
    requires Run(states, actions) && forall user :: NeverOverlap(states, user)
    ensures forall n :: 0 <= n < |states| ==> OneRowEach(states[n].rows)
  {
    forall i, m, k ensures !Overtaken(states, actions, i, m, k) {
      if Overtaken(states, actions, i, m, k) {
        NoOverlapNotOvertaken(states, actions, k, states[k].posts[actions[k].r].user);
      }
    }
    OneRowIff(states, actions);
  }

  /** Without that condition both promises fail: two first posts of user 7 overlap, both
      insert, and the answer stays at the number of the first. */
  lemma OverlapLosesUpdate() returns (states: seq<State>, actions: seq<Action>)
    ensures Run(states, actions) && |actions| == 6
    ensures states[6].rows == [Row(7, 10), Row(7, 20)]
    ensures LastWritten(states, actions, 6, 7) == 20 && Answer(states[6].rows, 7) == 10
  {
    actions := [Begin(1, 7, 10), Begin(2, 7, 20), Select(1), Select(2), Write(1), Write(2)];
    var s0 := State([], map[]);
    var s1 := Apply(s0, actions[0]);
    var s2 := Apply(s1, actions[1]);
    var s3 := Apply(s2, actions[2]);
    var s4 := Apply(s3, actions[3]);
    var s5 := Apply(s4, actions[4]);
    var s6 := Apply(s5, actions[5]);
    states := [s0, s1, s2, s3, s4, s5, s6];
    assert WritesFor(states, actions, 5, 7);
  }
}
