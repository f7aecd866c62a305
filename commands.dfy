/**
 * The values the slash-command handlers of src/index.js compute before they
 * call the messaging platform: the group `/group-create` asks for, the
 * direct messages `/group-invite` sends, what the `grouper_invite` action
 * does with a pressed button, and the member lists `/group-subscribe` and
 * `/group-unsubscribe` push. The platform calls themselves are not modelled;
 * the data a handler fetches from the platform is a parameter.
 */
module Commands {
  import opened Wrappers
  import opened Strings
  import opened Patterns
  import opened Membership
  import opened InvitePayload

  // ---------------------------------------------------------------------------
  // /group-create (src/index.js:10-25)

  /** The `usergroups.create` call `/group-create` makes, or the usage hint it replies with instead. */
  datatype CreateOutcome =
    | CreateUsage
    | CreateGroup(name: string, handle: string, channel: string)

  /**
   * `/group-create`: the handle is the identifier after the first `@`; the
   * name is the trimmed text that follows the first white space up to the
   * next `#` or `@`, or the handle when there is no such text. Without a
   * handle nothing is created.
   */
  function Create(text: string, channel: string): (r: CreateOutcome)
    ensures r.CreateGroup? ==> r.channel == channel
  {
    match First(Handle, text)
    case None => CreateUsage
    case Some(h) =>
      var handle := Trim(h.group1);
      match First(Name, text)
      case None => CreateGroup(handle, handle, channel)
      case Some(n) => CreateGroup(Trim(n.group1), handle, channel)
  }

  /** `/group-create` replies with the usage hint exactly when no `@` precedes an identifier character. */
  lemma CreateUsageIff(text: string, channel: string)
    ensures Create(text, channel).CreateUsage? <==> forall i :: 0 <= i < |text| ==> !HandleStartsAt(text, i)
  {
    FirstHandle(text);
  }

  /** The handle `/group-create` asks for is the identifier after the leftmost `@` that precedes one. */
  lemma CreateHandle(text: string, channel: string)
    requires Create(text, channel).CreateGroup?
    ensures exists i :: FirstHandleAt(text, i, Create(text, channel).handle)
  {
    FirstHandle(text);
    var h := First(Handle, text).value;
    var g := h.group1;
    assert FirstHandleAt(text, h.start, g);
    assert IsIdChar(g[0]) && IsIdChar(g[|g| - 1]);
    IdCharNotSpace(g[0]);
    IdCharNotSpace(g[|g| - 1]);
    TrimUnchanged(g);
  }

  /** Without a name run, the group is named after its handle. */
  lemma CreateNameDefault(text: string, channel: string)
    requires Create(text, channel).CreateGroup?
    requires forall i :: 0 <= i < |text| ==> !NameStartsAt(text, i)
    ensures Create(text, channel).name == Create(text, channel).handle
  {
    FirstName(text);
  }

  /** With a name run, the group is named by the leftmost run, trimmed. */
  lemma CreateNameRun(text: string, channel: string, start: int)
    requires Create(text, channel).CreateGroup?
    requires NameStartsAt(text, start)
    ensures exists i, run :: FirstNameAt(text, i, run) && Create(text, channel).name == Trim(run)
  {
    FirstName(text);
    var n := First(Name, text).value;
    assert FirstNameAt(text, n.start, n.group1);
  }

  /**
   * The usual form `@handle Group Name`: the handle is the identifier after
   * the `@`, and the name is the rest of the text, kept whole.
   */
  lemma CreateHandleName(h: string, n: string, channel: string)
    requires |h| >= 1 && forall q :: 0 <= q < |h| ==> IsIdChar(h[q])
    requires |n| >= 2 && forall q :: 0 <= q < |n| ==> n[q] != '#' && n[q] != '@'
    requires !IsSpace(n[0]) && !IsSpace(n[|n| - 1])
    ensures Create("@" + h + " " + n, channel) == CreateGroup(n, h, channel)
  {
    HandleOfForm(h, n);
    NameOfForm(h, n);
    TrimUnchanged(h);
    TrimUnchanged(n);
  }

  /** In `@handle Group Name`, the leftmost `@identifier` is the whole handle. */
  lemma HandleOfForm(h: string, n: string)
    requires |h| >= 1 && forall q :: 0 <= q < |h| ==> IsIdChar(h[q])
    ensures First(Handle, "@" + h + " " + n) == Some(Match(0, 1 + |h|, h, None))
  {
    var s := "@" + h + " " + n;
    var sp := 1 + |h|;
    assert forall q :: 0 <= q < |h| ==> s[1 + q] == h[q];
    RunLengthUnique(s, 1, Id, |h|);
    assert s[1..sp] == h;
    assert HandleAt(s, 0) == Some(Match(0, sp, h, None));
    FirstIsLeftmost(Handle, s, 0);
  }

  /** In `@handle Group Name`, the leftmost name is the whole group name. */
  lemma NameOfForm(h: string, n: string)
    requires |h| >= 1 && forall q :: 0 <= q < |h| ==> IsIdChar(h[q])
    requires |n| >= 2 && forall q :: 0 <= q < |n| ==> n[q] != '#' && n[q] != '@'
    ensures First(Name, "@" + h + " " + n) == Some(Match(1 + |h|, |h| + |n| + 2, n, None))
  {
    NameAtForm(h, n);
    NoNameInHandle(h, n);
    FirstIsLeftmost(Name, "@" + h + " " + n, 1 + |h|);
  }

  /** The name pattern matches at the space of `@handle Group Name` and captures the group name. */
  lemma NameAtForm(h: string, n: string)
    requires |n| >= 2 && forall q :: 0 <= q < |n| ==> n[q] != '#' && n[q] != '@'
    ensures MatchAt(Name, "@" + h + " " + n, 1 + |h|) == Some(Match(1 + |h|, |h| + |n| + 2, n, None))
  {
    var s := "@" + h + " " + n;
    var sp := 1 + |h|;
    assert s[sp] == ' ';
    forall j | sp + 1 <= j < |s| ensures InClass(s[j], NotHashAt) {
      assert s[j] == n[j - sp - 1];
    }
    RunLengthUnique(s, sp + 1, NotHashAt, |n|);
    assert s[sp + 1..|s|] == n;
  }

  /** The name pattern matches nowhere inside `@handle`. */
  lemma NoNameInHandle(h: string, n: string)
    requires forall q :: 0 <= q < |h| ==> IsIdChar(h[q])
    ensures forall k :: 0 <= k < 1 + |h| ==> MatchAt(Name, "@" + h + " " + n, k).None?
  {
    var s := "@" + h + " " + n;
    forall k | 0 <= k < 1 + |h| ensures MatchAt(Name, s, k).None? {
      if k == 0 {
        assert s[k] == '@';
      } else {
        assert s[k] == h[k - 1];
        IdCharNotSpace(s[k]);
      }
    }
  }

  // ---------------------------------------------------------------------------
  // /group-invite (src/index.js:43-98)

  /**
   * The direct message one invitee receives: sent to `@name`, naming the
   * inviter and the group, with the accept and the decline button. The
   * fallback text names the handle the reference carried, when it had one.
   */
  datatype Dm = Dm(channel: string, inviterId: string, group: string, fallbackHandle: Option<string>, buttons: seq<Button>)

  /** The invitation to `group` (a subteam reference) that `inviteeName` receives. */
  function InviteDm(inviterId: string, inviterName: string, group: Match, inviteeName: string): Dm {
    var inv := Invitation(inviterId, inviterName, group.group1);
    Dm("@" + inviteeName, inviterId, group.group1, group.group2, [Encode(inv, true), Encode(inv, false)])
  }

  /**
   * What `/group-invite` does: a usage hint when the text has no group
   * reference, another when it mentions no user; otherwise, after the
   * private "sending invites" acknowledgement, the direct messages in the
   * order they are sent. `aborted` records that a mention without `|name`
   * made the lookup of its name throw, which ends the `forEach` there.
   */
  datatype InviteOutcome =
    | NoGroupUsage
    | NoUsersUsage
    | Invites(dms: seq<Dm>, aborted: bool)

  /**
   * `/group-invite`: one direct message per `<@U…|name>` mention, in the order
   * the mentions appear, addressed to the mention's name, until the first
   * mention that carries no name.
   */
  method Invite(text: string, inviterId: string, inviterName: string) returns (r: InviteOutcome)
    ensures r.NoGroupUsage? <==> forall i :: 0 <= i < |text| ==> !SubteamStartsAt(text, i)
    ensures r.NoUsersUsage? <==> First(Subteam, text).Some? && MatchAll(Mention, text, 0) == []
    ensures r.Invites? ==> First(Subteam, text).Some? && MatchAll(Mention, text, 0) != []
    ensures r.Invites? && First(Subteam, text).Some? ==>
      var group := First(Subteam, text).value;
      var mentions := MatchAll(Mention, text, 0);
      && |r.dms| <= |mentions|
      && (forall k :: 0 <= k < |r.dms| ==>
            mentions[k].group2.Some? && r.dms[k] == InviteDm(inviterId, inviterName, group, mentions[k].group2.value))
      && (r.aborted <==> exists k :: 0 <= k < |mentions| && mentions[k].group2.None?)
      && (r.aborted ==> mentions[|r.dms|].group2.None?)
      && (!r.aborted ==> |r.dms| == |mentions|)
  {
    FirstSubteam(text);
    var usergroup := First(Subteam, text);
    if usergroup.None? {
      return NoGroupUsage;
    }
    var mentions := MatchAll(Mention, text, 0);
    var users := Matched(Mention, text);
    if users == [] {
      return NoUsersUsage;
    }
    MatchedTexts(Mention, text);
    var dms: seq<Dm> := [];
    var i := 0;
    while i < |users|
      invariant 0 <= i <= |users| == |mentions|
      invariant |dms| == i
      invariant forall k :: 0 <= k < i ==>
        mentions[k].group2.Some? && dms[k] == InviteDm(inviterId, inviterName, usergroup.value, mentions[k].group2.value)
    {
      assert users[i] == Text(text, mentions[i]);
      PipeNameOfMention(text, mentions[i]);
      var userName := First(PipeName, users[i]);
      if userName.None? {
        // `user.match(...)[1]` throws a TypeError: the remaining mentions get nothing.
        assert mentions[i].group2.None?;
        return Invites(dms, true);
      }
      dms := dms + [InviteDm(inviterId, inviterName, usergroup.value, userName.value.group1)];
      i := i + 1;
    }
    assert forall k :: 0 <= k < |mentions| ==> mentions[k].group2.Some?;
    return Invites(dms, false);
  }

  // ---------------------------------------------------------------------------
  // grouper_invite, the button action (src/index.js:101-143)

  /**
   * What a pressed invitation button leads to: the boolean could not be
   * parsed (the handler throws before doing anything); a decline, which
   * notifies the inviter; or an accept, which notifies the inviter and
   * pushes the new member list of the group.
   */
  datatype ResponseOutcome =
    | ResponseFailed(error: DecodeError)
    | Declined(notify: string, inviterId: string, group: string)
    | Accepted(notify: string, group: string, users: string)

  /**
   * The `grouper_invite` action, for `responder` pressing `pressed` while the
   * group's members are `current`. The inviter is notified at `@name`, which
   * reads `@undefined` when the button's name carries no name.
   */
  function Respond(responder: string, pressed: Button, current: seq<string>): (r: ResponseOutcome)
    ensures r.ResponseFailed? <==> Decode(pressed).Err?
    ensures r.Accepted? <==> Decode(pressed).Ok? && Decode(pressed).value.accepted
    ensures r.Accepted? ==> r.users == Join([responder] + current, ',') && r.group == Decode(pressed).value.group
    ensures r.Declined? ==> r.inviterId == Decode(pressed).value.inviterId && r.group == Decode(pressed).value.group
    ensures r.ResponseFailed? ==> r.error == Decode(pressed).error
    ensures (r.Accepted? || r.Declined?) ==> r.notify == "@" + Decode(pressed).value.inviterName.GetOr("undefined")
  {
    match Decode(pressed)
    case Err(e) => ResponseFailed(e)
    case Ok(a) =>
      var notify := "@" + a.inviterName.GetOr("undefined");
      if a.accepted then Accepted(notify, a.group, Subscribed(responder, current))
      else Declined(notify, a.inviterId, a.group)
  }

  /**
   * An invitation that `/group-invite` sent is answered as it was meant: its
   * accept button subscribes the responder to the group named in the
   * command and tells the inviter; its decline button only tells the inviter.
   */
  lemma InvitationAnswered(text: string, inviterId: string, inviterName: string, dm: Dm, responder: string, current: seq<string>)
    requires '|' !in inviterId && '|' !in inviterName
    requires First(Subteam, text).Some?
    requires exists invitee :: dm == InviteDm(inviterId, inviterName, First(Subteam, text).value, invitee)
    ensures Respond(responder, dm.buttons[0], current)
      == Accepted("@" + inviterName, First(Subteam, text).value.group1, Subscribed(responder, current))
    ensures Respond(responder, dm.buttons[1], current)
      == Declined("@" + inviterName, inviterId, First(Subteam, text).value.group1)
  {
    FirstSubteam(text);
    var inv := Invitation(inviterId, inviterName, First(Subteam, text).value.group1);
    DecodeEncode(inv, true);
    DecodeEncode(inv, false);
  }

  // ---------------------------------------------------------------------------
  // /group-subscribe (src/index.js:146-170)

  /** The `usergroups.users.update` call `/group-subscribe` makes, or its usage hint. */
  datatype SubscribeOutcome =
    | SubscribeUsage
    | SubscribeUpdate(group: string, users: string)

  /**
   * `/group-subscribe` by `invoker` for a group whose members are `current`.
   * The pattern of this handler lacks the optional `|@handle` part of the
   * invite pattern; `FirstSubteamId` shows that part never decides whether or
   * where a match is found, nor what the first group captures.
   */
  function Subscribe(text: string, invoker: string, current: seq<string>): (r: SubscribeOutcome)
    ensures r.SubscribeUsage? <==> forall i :: 0 <= i < |text| ==> !SubteamStartsAt(text, i)
    ensures r.SubscribeUpdate? ==>
      && (exists i :: FirstSubteamAt(text, i, r.group))
      && r.users == Join([invoker] + current, ',')
  {
    FirstSubteam(text);
    FirstSubteamId(text);
    match First(SubteamId, text)
    case None => SubscribeUsage
    case Some(m) =>
      assert FirstSubteamAt(text, m.start, m.group1);
      SubscribeUpdate(m.group1, Subscribed(invoker, current))
  }

  // ---------------------------------------------------------------------------
  // /group-unsubscribe (src/index.js:173-205)

  /** The `usergroups.users.update` call `/group-unsubscribe` makes, its refusal, or its usage hint. */
  datatype UnsubscribeOutcome =
    | UnsubscribeUsage
    | SoleMember(group: string)
    | UnsubscribeUpdate(group: string, users: string)

  /** The private replies of `/group-unsubscribe`, in the order they are sent. */
  datatype Notice = UsageHint | SoleMemberRefusal | UnsubscribedNotice

  /**
   * `/group-unsubscribe` by `invoker` for a group whose enabled members are
   * `current`: the other members are pushed, unless none are left, in which
   * case nothing is pushed.
   */
  function Unsubscribe(text: string, invoker: string, current: seq<string>): (r: UnsubscribeOutcome)
    ensures r.UnsubscribeUsage? <==> forall i :: 0 <= i < |text| ==> !SubteamStartsAt(text, i)
    ensures r.SoleMember? ==> (exists i :: FirstSubteamAt(text, i, r.group)) && Unsubscribed(invoker, current).None?
    ensures r.UnsubscribeUpdate? ==>
      && (exists i :: FirstSubteamAt(text, i, r.group))
      && r.users != ""
      && r.users == Join(Remaining(current, invoker), ',')
  {
    FirstSubteam(text);
    FirstSubteamId(text);
    match First(SubteamId, text)
    case None => UnsubscribeUsage
    case Some(m) =>
      assert FirstSubteamAt(text, m.start, m.group1);
      match Unsubscribed(invoker, current)
      case None => SoleMember(m.group1)
      case Some(users) => UnsubscribeUpdate(m.group1, users)
  }

  /**
   * The private replies: the refusal is followed by the "Unsubscribed!"
   * notice as well, because the promise chain goes on to its next step
   * after replying.
   */
  function UnsubscribeNotices(r: UnsubscribeOutcome): (n: seq<Notice>)
    ensures UnsubscribedNotice in n <==> !r.UnsubscribeUsage?
    ensures SoleMemberRefusal in n <==> r.SoleMember?
    ensures UsageHint in n <==> r.UnsubscribeUsage?
    ensures |n| == (if r.SoleMember? then 2 else 1)
    ensures |n| >= 1 && n[|n| - 1] == (if r.UnsubscribeUsage? then UsageHint else UnsubscribedNotice)
  {
    match r
    case UnsubscribeUsage => [UsageHint]
    case SoleMember(_) => [SoleMemberRefusal, UnsubscribedNotice]
    case UnsubscribeUpdate(_, _) => [UnsubscribedNotice]
  }
}
