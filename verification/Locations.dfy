/** The location store of ttac.c: a dictionary list behind a mutex. Calls are taken in
    the order in which they get the lock. */
module Locations {
  import opened CStrings
  import opened DictionaryLists
  import opened Wrappers

  // ----- one push, as a function of the entries -----

  function Pushed(es: seq<Entry>, key: string, value: string): seq<Entry> {
    if es == [] then [Entry(key, value)]
    else if es[0].key == key then [Entry(key, value)] + es[1..]
    else [es[0]] + Pushed(es[1..], key, value)
  }

  function Keys(es: seq<Entry>): (ks: seq<string>)
    ensures |ks| == |es| && forall i :: 0 <= i < |es| ==> ks[i] == es[i].key
  {
    seq(|es|, i requires 0 <= i < |es| => es[i].key)
  }

  ghost predicate Distinct(ks: seq<string>) {
    forall i, j :: 0 <= i < j < |ks| ==> ks[i] != ks[j]
  }

  lemma {:induction false} PushedWhere(es: seq<Entry>, key: string, value: string, i: nat)
    requires i <= |es| && forall j :: 0 <= j < i ==> es[j].key != key
    requires i < |es| ==> es[i].key == key
    ensures Pushed(es, key, value) == if i == |es| then es + [Entry(key, value)] else es[i := Entry(key, value)]
    decreases |es|
  {
    if i > 0 {
      assert forall j :: 0 <= j < i - 1 ==> es[1..][j] == es[j + 1];
      PushedWhere(es[1..], key, value, i - 1);
      assert es == [es[0]] + es[1..];
      if i < |es| { assert es[i := Entry(key, value)] == [es[0]] + es[1..][i - 1 := Entry(key, value)]; }
    }
  }

  /** A key keeps the place of its first push; no key is stored twice. */
  lemma PushedKeys(es: seq<Entry>, key: string, value: string)
    ensures Keys(Pushed(es, key, value)) == if key in Keys(es) then Keys(es) else Keys(es) + [key]
  {
    var i := FirstWithKey(es, key);
    PushedWhere(es, key, value, i);
    if i < |es| { assert Keys(es)[i] == key; }
  }

  lemma {:induction false} FirstWithKey(es: seq<Entry>, key: string) returns (i: nat)
    ensures i <= |es| && (forall j :: 0 <= j < i ==> es[j].key != key) && (i < |es| ==> es[i].key == key)
    decreases |es|
  {
    if es == [] || es[0].key == key {
      i := 0;
    } else {
      i := FirstWithKey(es[1..], key);
      assert forall j :: 0 < j < |es| ==> es[j] == es[1..][j - 1];
      i := i + 1;
    }
  }

  /** The list is a finite map: a push changes the value of its own key and no other. */
  lemma {:induction false} PushedLookup(es: seq<Entry>, key: string, value: string, other: string)
    ensures Lookup(Pushed(es, key, value), other) == if other == key then Some(value) else Lookup(es, other)
    decreases |es|
  {
    if es != [] && es[0].key != key {
      PushedLookup(es[1..], key, value, other);
    }
  }

  // ----- any history of pushes -----

  datatype Push = Push(user: string, latitude: string, longitude: string)

  function LocationValue(p: Push): string {
    p.latitude + "|" + p.longitude
  }

  /** The store after a history, oldest push first. */
  function After(history: seq<Push>): seq<Entry>
    decreases |history|
  {
    if history == [] then []
    else
      var last := history[|history| - 1];
      Pushed(After(history[..|history| - 1]), last.user, LocationValue(last))
  }

  /** The users of a history in the order of their first pushes. */
  function FirstPushes(history: seq<Push>): seq<string>
    decreases |history|
  {
    if history == [] then []
    else
      var earlier, user := FirstPushes(history[..|history| - 1]), history[|history| - 1].user;
      if user in earlier then earlier else earlier + [user]
  }

  /** The newest push of a user. */
  function LastPush(history: seq<Push>, user: string): Option<Push>
    decreases |history|
  {
    if history == [] then None
    else
      var last := history[|history| - 1];
      if last.user == user then Some(last) else LastPush(history[..|history| - 1], user)
  }

  /** After any history: users in the order of their first pushes, each once, and for
      every user the value of the newest push, or none. */
  lemma {:induction false} StoreRefinesMap(history: seq<Push>, user: string)
    ensures Keys(After(history)) == FirstPushes(history) && Distinct(FirstPushes(history))
    ensures Lookup(After(history), user) ==
              match LastPush(history, user) case None => None case Some(p) => Some(LocationValue(p))
    decreases |history|
  {
    if history != [] {
      var earlier, last := history[..|history| - 1], history[|history| - 1];
      StoreRefinesMap(earlier, user);
      PushedKeys(After(earlier), last.user, LocationValue(last));
      PushedLookup(After(earlier), last.user, LocationValue(last), user);
    }
  }

  // ----- push_location and pop_location -----

  /** Updates the value of the user's node in place, or adds a node at the end. */
  method PushLocation(list: DicList, user: CString, latitude: CString, longitude: CString)
    requires list.Valid()
    modifies list.Repr
    ensures list.Valid() && fresh(list.Repr - old(list.Repr))
    ensures list.Contents == Pushed(old(list.Contents), user, LocationValue(Push(user, latitude, longitude)))
  {
    var value := latitude + "|" + longitude;
    ghost var es := list.Contents;
    ghost var i := 0;
    var it := list.head;
    while it != null
      invariant 0 <= i <= |list.nodes| && it == At(list.nodes, i)
      invariant forall j :: 0 <= j < i ==> es[j].key != user
      decreases |list.nodes| - i
    {
      if user == it.key {
        SetValue(list, it, i, value);
        PushedWhere(es, user, value, i);
        return;
      }
      it := it.next;
      i := i + 1;
    }
    PushedWhere(es, user, value, i);
    list.AddData(user, value);
  }

  /** Frees the old value of a node and stores a new one. */
  method SetValue(list: DicList, it: Node, ghost i: nat, value: string)
    requires list.Valid() && i < |list.nodes| && it == list.nodes[i]
    modifies it`value, list`Contents
    ensures list.Valid() && list.Contents == old(list.Contents)[i := Entry(it.key, value)]
  {
    assert forall k {:trigger list.nodes[k]} :: 0 <= k < |list.nodes| && k != i ==> list.nodes[k] != it;
    it.value := value;
    list.Contents := list.Contents[i := Entry(it.key, value)];
  }

  method PopLocation(list: DicList, user: CString) returns (r: Option<string>)
    requires list.Valid()
    ensures r == Lookup(list.Contents, user)
  {
    ghost var i := 0;
    var it := list.head;
    while it != null
      invariant 0 <= i <= |list.nodes| && it == At(list.nodes, i)
      invariant Lookup(list.Contents, user) == Lookup(list.Contents[i..], user)
      decreases |list.nodes| - i
    {
      assert list.Contents[i..][1..] == list.Contents[i + 1..];
      if user == it.key { return Some(it.value); }
      it := it.next;
      i := i + 1;
    }
    return None;
  }

  // ----- the split in get_location -----

  /** The texts before and behind the first '|'. */
  function SplitLocation(value: string): (string, string)
    requires IndexOf(value, '|') != -1
  {
    (value[..IndexOf(value, '|')], value[IndexOf(value, '|') + 1..])
  }

  /** The split gives back what was pushed exactly when the latitude has no '|'. */
  lemma SplitRoundTripIff(p: Push)
    ensures IndexOf(LocationValue(p), '|') != -1
    ensures SplitLocation(LocationValue(p)) == (p.latitude, p.longitude) <==> '|' !in p.latitude
  {
    var v, n := LocationValue(p), |p.latitude|;
    assert v[n] == '|';
    IndexFromFirst(v, '|', 0);
    assert v[..n] == p.latitude && v[n + 1..] == p.longitude;
    if '|' !in p.latitude {
      assert forall i :: 0 <= i < n ==> v[i] == p.latitude[i];
      IndexFromIs(v, '|', 0, n);
    } else {
      var k :| 0 <= k < n && p.latitude[k] == '|';
      assert v[k] == '|' && IndexOf(v, '|') <= k;
    }
  }

  /** A bar in the latitude moves to the longitude. */
  lemma BarMoves()
    ensures IndexOf(LocationValue(Push("7", "1|2", "3")), '|') != -1
    ensures SplitLocation(LocationValue(Push("7", "1|2", "3"))) == ("1", "2|3")
  {
    var v := LocationValue(Push("7", "1|2", "3"));
    assert v == "1|2|3";
    IndexFromIs(v, '|', 0, 1);
    assert v[..1] == "1" && v[2..] == "2|3";
  }

  /** What get_location answers: the newest pair, or zeros for a user without one. */
  function LocationAnswer(found: Option<string>): Outcome<(string, string)> {
    match found
    case None => Ok(("0.0", "0.0"))
    case Some(v) => if IndexOf(v, '|') == -1 then Fault else Ok(SplitLocation(v))
  }

  method GetLocation(list: DicList, user: CString) returns (r: Outcome<(string, string)>)
    requires list.Valid()
    ensures r == LocationAnswer(Lookup(list.Contents, user))
  {
    var location := PopLocation(list, user);
    if location.None? { return Ok(("0.0", "0.0")); }
    var text := location.value;
    var p := IndexOf(text, '|');
    if p < 0 { return Fault; }
    return Ok((text[..p], text[p + 1..]));
  }

  /** After any history, the answer for a user is never a fault: zeros without a push,
      else the pair of the newest push, intact exactly when its latitude has no '|'. */
  lemma AnswerAfter(history: seq<Push>, user: string)
    ensures var answer := LocationAnswer(Lookup(After(history), user));
            match LastPush(history, user)
            case None => answer == Ok(("0.0", "0.0"))
            case Some(p) => answer.Ok? && (answer.value == (p.latitude, p.longitude) <==> '|' !in p.latitude)
  {
    StoreRefinesMap(history, user);
    var last := LastPush(history, user);
    if last.Some? { SplitRoundTripIff(last.value); }
  }
}
