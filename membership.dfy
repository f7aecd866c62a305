/**
 * The member lists that `/group-subscribe`, the accept button of an
 * invitation and `/group-unsubscribe` send to `usergroups.users.update`
 * (src/index.js:135, 161, 188-193). A member list travels as user ids joined
 * by commas.
 */
module Membership {
  import opened Wrappers
  import opened Strings

  /** `users.reduce((acc, user) => `${acc},${user}`, acc)`: a comma and each user, appended in turn. */
  function AppendEach(acc: string, users: seq<string>): string
    decreases |users|
  {
    if users == [] then acc else AppendEach(acc + [','] + users[0], users[1..])
  }

  /** Appending each user after a comma is joining the start and the users with commas. */
  lemma {:induction false} AppendEachIsJoin(acc: string, users: seq<string>)
    ensures AppendEach(acc, users) == Join([acc] + users, ',')
    decreases |users|
  {
    if users != [] {
      AppendEachIsJoin(acc + [','] + users[0], users[1..]);
      assert ([acc] + users)[1..] == users;
      assert ([acc + [','] + users[0]] + users[1..])[1..] == users[1..];
      if |users| == 1 {
        assert Join([acc] + users, ',') == acc + [','] + Join(users, ',');
      } else {
        assert ([acc] + users)[1..][1..] == users[1..];
      }
    }
  }

  /**
   * The member list after `invoker` subscribes (or accepts an invitation):
   * `invoker` first, then every current member in order, comma-joined. Nothing
   * is de-duplicated.
   */
  function Subscribed(invoker: string, current: seq<string>): (r: string)
    ensures r == Join([invoker] + current, ',')
  {
    AppendEachIsJoin(invoker, current);
    AppendEach(invoker, current)
  }

  /**
   * Read back as ids, the subscribed list is the invoker followed by the
   * current members: one entry more than before, and the invoker's entries
   * are one more than before, so an existing member ends up listed twice.
   */
  lemma SubscribedEntries(invoker: string, current: seq<string>)
    requires ',' !in invoker
    requires forall k :: 0 <= k < |current| ==> ',' !in current[k]
    ensures Split(Subscribed(invoker, current), ',') == [invoker] + current
    ensures |Split(Subscribed(invoker, current), ',')| == |current| + 1
    ensures multiset(Split(Subscribed(invoker, current), ',')) == multiset(current) + multiset{invoker}
  {
    var parts := [invoker] + current;
    forall k | 0 <= k < |parts| ensures ',' !in parts[k] {
      if k > 0 { assert parts[k] == current[k - 1]; }
    }
    SplitJoin(parts, ',');
  }

  /** `users.filter(user => user !== invoker)`: every entry other than `invoker`, in order. */
  function Remaining(current: seq<string>, invoker: string): (r: seq<string>)
    ensures invoker !in r
    ensures forall u :: u in r <==> u in current && u != invoker
    ensures forall u :: u != invoker ==> multiset(r)[u] == multiset(current)[u]
    decreases |current|
  {
    if current == [] then []
    else
      var rest := Remaining(current[1..], invoker);
      assert current == [current[0]] + current[1..];
      if current[0] == invoker then rest else [current[0]] + rest
  }

  /** Filtering keeps order: filtering a concatenation concatenates the filtered parts. */
  lemma {:induction false} RemainingConcat(a: seq<string>, b: seq<string>, invoker: string)
    ensures Remaining(a + b, invoker) == Remaining(a, invoker) + Remaining(b, invoker)
    decreases |a|
  {
    if a != [] {
      RemainingConcat(a[1..], b, invoker);
      assert (a + b)[1..] == a[1..] + b;
    } else {
      assert a + b == b;
    }
  }

  /**
   * The member list after `invoker` unsubscribes, or `None` for the refusal:
   * the remaining members comma-joined, refused when that string is empty.
   */
  function Unsubscribed(invoker: string, current: seq<string>): (r: Option<string>)
    ensures r.None? <==> Remaining(current, invoker) == [] || Remaining(current, invoker) == [""]
    ensures r.Some? ==> r.value != "" && r.value == Join(Remaining(current, invoker), ',')
  {
    var users := Join(Remaining(current, invoker), ',');
    JoinEmpty(Remaining(current, invoker), ',');
    if users == "" then None else Some(users)
  }

  /**
   * With non-empty ids, unsubscribing is refused exactly when every current
   * member is the invoker (the invoker is the only member, or there are none).
   */
  lemma UnsubscribeRefusedIff(invoker: string, current: seq<string>)
    requires forall k :: 0 <= k < |current| ==> current[k] != ""
    ensures Unsubscribed(invoker, current).None? <==> forall k :: 0 <= k < |current| ==> current[k] == invoker
  {
    var r := Remaining(current, invoker);
    if r == [""] {
      assert "" in current;
    }
    if r == [] {
      forall k | 0 <= k < |current| ensures current[k] == invoker {
        assert current[k] !in r;
      }
    } else {
      assert r[0] in current && r[0] != invoker;
    }
  }

  /**
   * Read back as ids, the list an unsubscribe sends holds the other members,
   * each as often as before, in their order, and never the invoker.
   */
  lemma UnsubscribedEntries(invoker: string, current: seq<string>)
    requires forall k :: 0 <= k < |current| ==> ',' !in current[k]
    requires Unsubscribed(invoker, current).Some?
    ensures Split(Unsubscribed(invoker, current).value, ',') == Remaining(current, invoker)
    ensures invoker !in Split(Unsubscribed(invoker, current).value, ',')
  {
    var r := Remaining(current, invoker);
    forall k | 0 <= k < |r| ensures ',' !in r[k] {
      assert r[k] in current;
    }
    SplitJoin(r, ',');
  }
}
