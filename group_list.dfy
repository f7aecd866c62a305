/**
 * `/group-list` (src/index.js:210-282): the reply it builds from the trimmed
 * search text and the user groups the platform returns. A `subteam^`
 * reference lists the users of that group; an `@U…` user id lists the groups
 * that user belongs to; other text lists the groups whose name or handle
 * contains it; no text lists every group.
 */
module GroupList {
  import opened Wrappers
  import opened Strings
  import opened Patterns

  /** A user group as `usergroups.list` returns it (with counts and users). */
  datatype Usergroup = Usergroup(id: string, name: string, handle: string, userCount: nat, users: seq<string>)

  /** One field of the reply attachment; `short` is absent from the "no results" field. */
  datatype Field = Field(title: Option<string>, value: string, short: bool)

  /** The title of the reply attachment, by the branch that produced it. */
  datatype Title =
    | AvailableGroups         // no search text
    | UsersIn(search: string) // a subteam reference
    | GroupsOf(search: string) // a user id
    | Matching(search: string) // other text

  /** The reply attachment: its title and its fields. */
  datatype Listing = Listing(title: Title, fields: seq<Field>)

  const NoResults: Field := Field(Some("No results found"), "Try something less specific, it's a pretty dumb search", false)

  /** The field for one group: its name as title, `@handle: count users` as value. */
  function GroupField(g: Usergroup): Field {
    Field(Some(g.name), "@" + g.handle + ": " + Decimal(g.userCount) + " users", true)
  }

  /** The field for one user of a group: a mention of the user. */
  function UserField(u: string): Field {
    Field(None, "<@" + u + ">", true)
  }

  /** `users.map(...)`: one mention field per user, in order. */
  function UserFields(users: seq<string>): seq<Field> {
    seq(|users|, k requires 0 <= k < |users| => UserField(users[k]))
  }

  /** `usergroups.map(...)`: one field per group, in order. */
  function GroupFields(groups: seq<Usergroup>): seq<Field> {
    seq(|groups|, k requires 0 <= k < |groups| => GroupField(groups[k]))
  }

  /** The user a `<@user>` mention value names, if the value is one. */
  function MentionedUser(v: string): Option<string> {
    if |v| >= 3 && v[..2] == "<@" && v[|v| - 1] == '>' then Some(v[2..|v| - 1]) else None
  }

  /** Every user field reads back as the user it was made for, in order. */
  lemma UserFieldsReadBack(users: seq<string>)
    ensures |UserFields(users)| == |users|
    ensures forall k :: 0 <= k < |users| ==>
      UserFields(users)[k].title.None? && MentionedUser(UserFields(users)[k].value) == Some(users[k])
  {
    forall k | 0 <= k < |users|
      ensures MentionedUser(UserFields(users)[k].value) == Some(users[k])
    {
      var v := UserFields(users)[k].value;
      assert v == "<@" + users[k] + ">";
      assert v[2..|v| - 1] == users[k];
    }
  }

  /** Where the run of decimal digits that ends at index `e` of `s` starts. */
  function DigitRunStart(s: string, e: nat): (a: nat)
    requires e <= |s|
    ensures a <= e
    decreases e
  {
    if e > 0 && '0' <= s[e - 1] <= '9' then DigitRunStart(s, e - 1) else e
  }

  /** A digit run from `a` to `e` with no digit before it is the run `DigitRunStart` finds. */
  lemma {:induction false} DigitRunStartIs(s: string, a: nat, e: nat)
    requires a <= e <= |s|
    requires forall k :: a <= k < e ==> '0' <= s[k] <= '9'
    requires a == 0 || !('0' <= s[a - 1] <= '9')
    ensures DigitRunStart(s, e) == a
    decreases e
  {
    if e > a {
      DigitRunStartIs(s, a, e - 1);
    }
  }

  /**
   * Reads a `@handle: count users` value back into the handle and the count,
   * from the right, so that a handle holding `: ` is still read correctly.
   */
  function GroupValue(v: string): Option<(string, nat)> {
    if |v| < 6 || v[|v| - 6..] != " users" then None else HandleCount(v[..|v| - 6])
  }

  /** Reads `@handle: count` back into the handle and the count, the count first. */
  function HandleCount(w: string): Option<(string, nat)> {
    var a := DigitRunStart(w, |w|);
    if a == |w| || a < 3 || w[a - 2..a] != ": " || w[0] != '@' then None
    else
      assert forall k :: 0 <= k < |w[a..]| ==> '0' <= w[a..][k] <= '9' by {
        DigitRunAll(w, |w|);
      }
      Some((w[1..a - 2], DigitsValue(w[a..])))
  }

  /** Every character from `DigitRunStart(s, e)` up to `e` is a digit. */
  lemma {:induction false} DigitRunAll(s: string, e: nat)
    requires e <= |s|
    ensures forall k :: DigitRunStart(s, e) <= k < e ==> '0' <= s[k] <= '9'
    decreases e
  {
    if e > 0 && '0' <= s[e - 1] <= '9' {
      DigitRunAll(s, e - 1);
    }
  }

  /** `@h: d` reads back as the handle `h` and the number the digits `d` denote. */
  lemma HandleCountOf(h: string, d: string)
    requires |d| >= 1 && forall k :: 0 <= k < |d| ==> '0' <= d[k] <= '9'
    ensures HandleCount("@" + h + ": " + d) == Some((h, DigitsValue(d)))
  {
    var w := "@" + h + ": " + d;
    var a := |w| - |d|;
    assert DigitRunStart(w, |w|) == a by {
      assert w[a - 1] == ' ';
      forall k | a <= k < |w| ensures '0' <= w[k] <= '9' {
        assert w[k] == d[k - a];
      }
      DigitRunStartIs(w, a, |w|);
    }
    assert w[a..] == d && w[a - 2..a] == ": " && w[0] == '@' && w[1..a - 2] == h;
  }

  /** `@h: d users` reads back as the handle `h` and the number the digits `d` denote. */
  lemma GroupValueOf(h: string, d: string)
    requires |d| >= 1 && forall k :: 0 <= k < |d| ==> '0' <= d[k] <= '9'
    ensures GroupValue("@" + h + ": " + d + " users") == Some((h, DigitsValue(d)))
  {
    var w := "@" + h + ": " + d;
    var v := w + " users";
    assert v[..|v| - 6] == w && v[|v| - 6..] == " users";
    HandleCountOf(h, d);
  }

  /** A group's field value reads back as its handle and its user count. */
  lemma GroupValueOfField(g: Usergroup)
    ensures GroupValue(GroupField(g).value) == Some((g.handle, g.userCount))
  {
    GroupValueOf(g.handle, Decimal(g.userCount));
    DecimalValue(g.userCount);
  }

  /** Every group field reads back as its group's name, handle and user count, in order. */
  lemma GroupFieldsReadBack(groups: seq<Usergroup>)
    ensures |GroupFields(groups)| == |groups|
    ensures forall k :: 0 <= k < |groups| ==>
      GroupFields(groups)[k].title == Some(groups[k].name)
      && GroupValue(GroupFields(groups)[k].value) == Some((groups[k].handle, groups[k].userCount))
  {
    forall k | 0 <= k < |groups|
      ensures GroupValue(GroupFields(groups)[k].value) == Some((groups[k].handle, groups[k].userCount))
    {
      GroupValueOfField(groups[k]);
    }
  }

  /** `groups.filter(keep)`: the groups `keep` accepts, in their order. */
  function Filter(groups: seq<Usergroup>, keep: Usergroup -> bool): (r: seq<Usergroup>)
    ensures |r| <= |groups|
    decreases |groups|
  {
    if groups == [] then []
    else
      var rest := Filter(groups[1..], keep);
      if keep(groups[0]) then [groups[0]] + rest else rest
  }

  /** A group survives the filter exactly when it is one of the groups and `keep` accepts it. */
  lemma {:induction false} FilterMembers(groups: seq<Usergroup>, keep: Usergroup -> bool)
    ensures forall g :: g in Filter(groups, keep) <==> g in groups && keep(g)
    decreases |groups|
  {
    if groups != [] {
      FilterMembers(groups[1..], keep);
      assert groups == [groups[0]] + groups[1..];
    }
  }

  /** Filtering a concatenation filters each part. */
  lemma {:induction false} FilterConcat(a: seq<Usergroup>, b: seq<Usergroup>, keep: Usergroup -> bool)
    ensures Filter(a + b, keep) == Filter(a, keep) + Filter(b, keep)
    decreases |a|
  {
    if a == [] {
      assert a + b == b;
    } else {
      FilterConcat(a[1..], b, keep);
      assert (a + b)[0] == a[0] && (a + b)[1..] == a[1..] + b;
      if keep(a[0]) {
        assert Filter(a + b, keep) == [a[0]] + Filter(a[1..] + b, keep);
        assert Filter(a, keep) == [a[0]] + Filter(a[1..], keep);
      }
    }
  }

  /**
   * `.reduce((cur, group) => group.users, cur)`: each group replaces what came
   * before, so what is left is the users of the last group.
   */
  function LastUsers(groups: seq<Usergroup>, cur: seq<string>): seq<string>
    decreases |groups|
  {
    if groups == [] then cur else LastUsers(groups[1..], groups[0].users)
  }

  /** The reduction gives the users of the last group, or its start value when there is none. */
  lemma {:induction false} LastUsersIsLast(groups: seq<Usergroup>, cur: seq<string>)
    ensures LastUsers(groups, cur) == if groups == [] then cur else groups[|groups| - 1].users
    decreases |groups|
  {
    if groups != [] {
      LastUsersIsLast(groups[1..], groups[0].users);
    }
  }

  /**
   * Among the groups `keep` accepts, the last is the one at index `j` when no
   * later group is accepted; the reduction yields its users.
   */
  lemma {:induction false} LastAccepted(groups: seq<Usergroup>, keep: Usergroup -> bool, j: nat, cur: seq<string>)
    requires j < |groups| && keep(groups[j])
    requires forall j2 :: j < j2 < |groups| ==> !keep(groups[j2])
    ensures LastUsers(Filter(groups, keep), cur) == groups[j].users
    decreases j
  {
    var rest := groups[1..];
    if j == 0 {
      FilterNone(rest, keep);
    } else {
      LastAccepted(rest, keep, j - 1, if keep(groups[0]) then groups[0].users else cur);
    }
  }

  /** A filter that accepts none of the groups leaves nothing. */
  lemma {:induction false} FilterNone(groups: seq<Usergroup>, keep: Usergroup -> bool)
    requires forall j :: 0 <= j < |groups| ==> !keep(groups[j])
    ensures Filter(groups, keep) == []
    decreases |groups|
  {
    if groups != [] {
      FilterNone(groups[1..], keep);
    }
  }

  /**
   * Selecting the groups with a given id and reducing them to their users
   * gives the users of the last group with that id, or none when no group has it.
   */
  lemma LastWithId(groups: seq<Usergroup>, keep: Usergroup -> bool, id: string)
    requires forall g :: keep(g) == (g.id == id)
    ensures (forall j :: 0 <= j < |groups| ==> groups[j].id != id) ==> LastUsers(Filter(groups, keep), []) == []
    ensures forall j :: 0 <= j < |groups| && groups[j].id == id && (forall j2 :: j < j2 < |groups| ==> groups[j2].id != id) ==>
      LastUsers(Filter(groups, keep), []) == groups[j].users
  {
    if forall j :: 0 <= j < |groups| ==> groups[j].id != id {
      FilterNone(groups, keep);
    }
    forall j | 0 <= j < |groups| && groups[j].id == id && (forall j2 :: j < j2 < |groups| ==> groups[j2].id != id)
      ensures LastUsers(Filter(groups, keep), []) == groups[j].users
    {
      LastAccepted(groups, keep, j, []);
    }
  }

  /** Outside the subteam branch: does the search keep group `g`? */
  predicate Keeps(search: string, g: Usergroup) {
    match First(UserRef, search)
    case Some(u) => u.group1 in g.users
    case None => search == "" || Includes(g.name, search) || Includes(g.handle, search)
  }

  /** The groups the search keeps, in their order. */
  function Kept(search: string, groups: seq<Usergroup>): seq<Usergroup>
    decreases |groups|
  {
    if groups == [] then []
    else if Keeps(search, groups[0]) then [groups[0]] + Kept(search, groups[1..])
    else Kept(search, groups[1..])
  }

  /** Any filter that decides as `Keeps` does yields `Kept`. */
  lemma {:induction false} FilterIsKept(search: string, groups: seq<Usergroup>, keep: Usergroup -> bool)
    requires forall g :: keep(g) == Keeps(search, g)
    ensures Filter(groups, keep) == Kept(search, groups)
    decreases |groups|
  {
    if groups != [] {
      FilterIsKept(search, groups[1..], keep);
    }
  }

  /** A group is kept exactly when it is one of the groups and the search keeps it. */
  lemma {:induction false} KeptMembers(search: string, groups: seq<Usergroup>)
    ensures forall g :: g in Kept(search, groups) <==> g in groups && Keeps(search, g)
    decreases |groups|
  {
    if groups != [] {
      KeptMembers(search, groups[1..]);
      assert groups == [groups[0]] + groups[1..];
    }
  }

  /** Keeping preserves order: the kept groups of a concatenation are the kept groups of each part, in turn. */
  lemma {:induction false} KeptConcat(search: string, a: seq<Usergroup>, b: seq<Usergroup>)
    ensures Kept(search, a + b) == Kept(search, a) + Kept(search, b)
    decreases |a|
  {
    if a == [] {
      assert a + b == b;
    } else {
      KeptConcat(search, a[1..], b);
      assert (a + b)[0] == a[0] && (a + b)[1..] == a[1..] + b;
      if Keeps(search, a[0]) {
        assert Kept(search, a + b) == [a[0]] + Kept(search, a[1..] + b);
        assert Kept(search, a) == [a[0]] + Kept(search, a[1..]);
      }
    }
  }

  /** With no search text every group is kept. */
  lemma {:induction false} KeptAll(groups: seq<Usergroup>)
    ensures Kept("", groups) == groups
    decreases |groups|
  {
    if groups != [] {
      assert First(UserRef, "").None?;
      KeptAll(groups[1..]);
    }
  }

  /**
   * `/group-list` with `text` over `groups`. With a `subteam^` reference, the
   * fields mention the users of the last group with that id, in order, and
   * there are none when no group has it. Otherwise the fields are one per
   * kept group, in order, or the single "no results" field when none is kept.
   */
  method List(text: string, groups: seq<Usergroup>) returns (reply: Listing)
    ensures var search := Trim(text);
      First(SubteamId, search).Some? ==>
        var id := First(SubteamId, search).value.group1;
        && reply.title == UsersIn(search)
        && ((forall j :: 0 <= j < |groups| ==> groups[j].id != id) ==> reply.fields == [])
        && (forall j :: 0 <= j < |groups| && groups[j].id == id && (forall j2 :: j < j2 < |groups| ==> groups[j2].id != id) ==>
              reply.fields == UserFields(groups[j].users))
    ensures var search := Trim(text);
      First(SubteamId, search).None? ==>
        && reply.title == (if First(UserRef, search).Some? then GroupsOf(search)
                           else if search != "" then Matching(search)
                           else AvailableGroups)
        && (Kept(search, groups) == [] ==> reply.fields == [NoResults])
        && (Kept(search, groups) != [] ==> reply.fields == GroupFields(Kept(search, groups)))
  {
    var search := Trim(text);
    var usergroups := groups;
    var usergroup := First(SubteamId, search);
    var user := First(UserRef, search);
    var title := AvailableGroups;
    var fields := [NoResults];

    if usergroup.Some? {
      var id := usergroup.value.group1;
      var matching := Filter(usergroups, (g: Usergroup) => g.id == id);
      var users := LastUsers(matching, []);
      LastWithId(groups, (g: Usergroup) => g.id == id, id);
      return Listing(UsersIn(search), UserFields(users));
    } else if user.Some? {
      var uid := user.value.group1;
      title := GroupsOf(search);
      usergroups := Filter(usergroups, (g: Usergroup) => uid in g.users);
      FilterIsKept(search, groups, (g: Usergroup) => uid in g.users);
    } else if search != "" {
      title := Matching(search);
      usergroups := Filter(usergroups, (g: Usergroup) => search == "" || Includes(g.name, search) || Includes(g.handle, search));
      FilterIsKept(search, groups, (g: Usergroup) => search == "" || Includes(g.name, search) || Includes(g.handle, search));
    } else {
      KeptAll(groups);
    }

    if |usergroups| > 0 {
      fields := GroupFields(usergroups);
    }
    reply := Listing(title, fields);
  }
}
