/**
 * The invitation payload (src/index.js:78-88, 103-107). `/group-invite` packs
 * the inviter and the group into the two buttons of the direct message it
 * sends: `name` is `inviterId|inviterName`, `value` is `group|true` on the
 * accept button and `group|false` on the decline button. When a button is
 * pressed, the `grouper_invite` action unpacks them again with `split('|')`
 * and `JSON.parse`.
 */
module InvitePayload {
  import opened Wrappers
  import opened Strings

  /** Who invites whom to which group. */
  datatype Invitation = Invitation(inviterId: string, inviterName: string, group: string)

  /** The two fields of a button that carry the payload. */
  datatype Button = Button(name: string, value: string)

  /**
   * What the action handler reads back from a pressed button. `inviterName`
   * is absent when the button's name holds no `|`: destructuring leaves it
   * `undefined` in JavaScript.
   */
  datatype Answer = Answer(inviterId: string, inviterName: Option<string>, group: string, accepted: bool)

  /** `JSON.parse(yes)` failed: `yes` is `undefined` (no `|` in the value) or not a boolean literal. */
  datatype DecodeError = NotABoolean(text: Option<string>)

  /** How a boolean prints inside a template string. */
  function FlagText(b: bool): string {
    if b then "true" else "false"
  }

  /** The button `/group-invite` builds: the accept button for `accept`, else the decline button. */
  function Encode(inv: Invitation, accept: bool): Button {
    Button(inv.inviterId + "|" + inv.inviterName, inv.group + "|" + FlagText(accept))
  }

  /** `JSON.parse` of the flag: the literals `true` and `false`, anything else fails. */
  function ParseFlag(text: Option<string>): (r: Result<bool, DecodeError>)
    ensures r.Ok? <==> text == Some("true") || text == Some("false")
    ensures r.Ok? ==> FlagText(r.value) == text.value
  {
    match text
    case Some(t) => if t == "true" then Ok(true) else if t == "false" then Ok(false) else Err(NotABoolean(text))
    case None => Err(NotABoolean(None))
  }

  /**
   * The payload of a pressed button: the first two `|`-separated pieces of
   * its name, the first piece of its value, and the second piece of its value
   * read as a boolean. Pieces beyond the second are ignored, as destructuring
   * ignores them.
   */
  function Decode(b: Button): Result<Answer, DecodeError> {
    var name := Split(b.name, '|');
    var value := Split(b.value, '|');
    match ParseFlag(if |value| >= 2 then Some(value[1]) else None)
    case Err(e) => Err(e)
    case Ok(yes) => Ok(Answer(name[0], if |name| >= 2 then Some(name[1]) else None, value[0], yes))
  }

  /**
   * Decoding gives back exactly what was encoded if and only if none of the
   * three fields holds a `|`.
   */
  lemma DecodeEncode(inv: Invitation, accept: bool)
    ensures Decode(Encode(inv, accept)) == Ok(Answer(inv.inviterId, Some(inv.inviterName), inv.group, accept))
      <==> '|' !in inv.inviterId && '|' !in inv.inviterName && '|' !in inv.group
  {
    if '|' !in inv.inviterId && '|' !in inv.inviterName && '|' !in inv.group {
      PairSplits(inv.inviterId, inv.inviterName);
      PairSplits(inv.group, FlagText(accept));
    } else {
      DecodeLoses(inv, accept);
    }
  }

  /** `x|y` splits back into `x` and `y` when neither holds a `|`. */
  lemma PairSplits(x: string, y: string)
    requires '|' !in x && '|' !in y
    ensures Split(x + "|" + y, '|') == [x, y]
  {
    SplitAtFirst(x, y, '|');
    SplitNoSeparator(y, '|');
    assert x + "|" + y == x + ['|'] + y;
  }

  /** A field holding a `|` does not come back whole: every piece of a split is free of `|`. */
  lemma DecodeLoses(inv: Invitation, accept: bool)
    requires '|' in inv.inviterId || '|' in inv.inviterName || '|' in inv.group
    ensures Decode(Encode(inv, accept)) != Ok(Answer(inv.inviterId, Some(inv.inviterName), inv.group, accept))
  {
    var b := Encode(inv, accept);
    var name := Split(b.name, '|');
    var value := Split(b.value, '|');
    assert '|' !in name[0] && '|' !in value[0];
    if '|' !in inv.inviterId && '|' in inv.inviterName {
      SplitAtFirst(inv.inviterId, inv.inviterName, '|');
      assert inv.inviterId + "|" + inv.inviterName == inv.inviterId + ['|'] + inv.inviterName;
      assert name[1] == Split(inv.inviterName, '|')[0];
      assert '|' !in name[1];
    }
  }
}
