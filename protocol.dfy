/** The messenger's wire protocol: the packet strings a peer sends, the queue
    items the receiver produces, and the receiver's per-packet decode step. */
module Protocol {
  import opened Text

  const JoinPrefix: string := "__JOIN__:"
  const PresencePrefix: string := "__PRESENCE__:"
  const LeavePrefix: string := "__LEAVE__:"

  /** Broadcast by a peer when it enters the chat. */
  function JoinPacket(name: string): (p: string)
    ensures JoinPrefix <= p && p[|JoinPrefix|..] == name
  {
    JoinPrefix + name
  }

  /** Sent in answer to another peer's JOIN, announcing the answering peer. */
  function PresencePacket(name: string): (p: string)
    ensures PresencePrefix <= p && p[|PresencePrefix|..] == name
  {
    PresencePrefix + name
  }

  /** Broadcast by a peer when its window closes. */
  function LeavePacket(name: string): (p: string)
    ensures LeavePrefix <= p && p[|LeavePrefix|..] == name
  {
    LeavePrefix + name
  }

  /** A chat line as sent by `send_msg`. */
  function ChatPacket(name: string, text: string): (p: string)
    ensures SepAt(p, |name|) && p[..|name|] == name && p[|name| + 2..] == text
  {
    name + ": " + text
  }

  /** The receiver's `startswith` tests, any of which makes a packet a control
      packet rather than a chat line. */
  predicate IsControl(msg: string): (r: bool)
    ensures r ==> ':' in msg
  {
    assert JoinPrefix <= msg ==> msg[|JoinPrefix| - 1] == ':';
    assert PresencePrefix <= msg ==> msg[|PresencePrefix| - 1] == ':';
    assert LeavePrefix <= msg ==> msg[|LeavePrefix| - 1] == ':';
    JoinPrefix <= msg || PresencePrefix <= msg || LeavePrefix <= msg
  }

  /** Whether a chat line is drawn as one's own ("me") or someone else's. */
  datatype Tag = Me | Other

  /** The tuples the receiver puts on the message queue:
      `("chat", sender, txt, tag)`, `("system", text)`, `("add", user)`,
      `("remove", user)`. */
  datatype Item =
    | Chat(sender: string, text: string, tag: Tag)
    | System(notice: string)
    | Add(user: string)
    | Remove(user: string)

  datatype Option<T> = None | Some(value: T)

  /** What one received packet causes: the items queued, in order, and the
      packet sent back, if any. */
  datatype Step = Step(items: seq<Item>, reply: Option<string>)

  const Silent: Step := Step([], None)

  /** The name a control packet carries: `msg.split(":")[1]`. */
  function ControlName(msg: string): (name: string)
    requires IsControl(msg)
    ensures ':' !in name
  {
    assert JoinPrefix <= msg ==> msg[|JoinPrefix| - 1] == ':';
    assert PresencePrefix <= msg ==> msg[|PresencePrefix| - 1] == ':';
    assert LeavePrefix <= msg ==> msg[|LeavePrefix| - 1] == ':';
    SecondField(msg)
  }

  /** One pass of the receiver loop on the packet `msg`, for a peer whose own
      name is `username`. The prefixes are tried in the order JOIN, PRESENCE,
      LEAVE, and only then the chat separator; anything else is dropped. */
  function Decode(username: string, msg: string): (r: Step)
    ensures |r.items| <= 2
    ensures r.reply.Some? ==> JoinPrefix <= msg && r.reply.value == PresencePacket(username)
  {
    if JoinPrefix <= msg then
      var user := ControlName(msg);
      if user != username then
        Step([System(user + " joined"), Add(user)], Some(PresencePacket(username)))
      else
        Silent
    else if PresencePrefix <= msg then
      Step([Add(ControlName(msg))], None)
    else if LeavePrefix <= msg then
      Step([Remove(ControlName(msg))], None)
    else if FirstSep(msg) < |msg| then
      var (sender, txt) := SplitSep(msg);
      Step([Chat(sender, txt, if sender == username then Me else Other)], None)
    else
      Silent
  }

  /** A chat item comes only from a packet with no control prefix, and it is
      tagged "me" exactly when its sender is the own user. */
  lemma ChatItemTag(username: string, msg: string)
    ensures forall it | it in Decode(username, msg).items && it.Chat? ::
              !IsControl(msg) && (it.tag == Me <==> it.sender == username)
  {
  }

  /** The three control prefixes exclude one another, so the order in which the
      receiver tries them only matters against the chat test. */
  lemma ControlPrefixesExclusive(msg: string)
    ensures !(JoinPrefix <= msg && PresencePrefix <= msg)
    ensures !(JoinPrefix <= msg && LeavePrefix <= msg)
    ensures !(PresencePrefix <= msg && LeavePrefix <= msg)
  {
    if JoinPrefix <= msg { assert msg[2] == 'J'; }
    if PresencePrefix <= msg { assert msg[2] == 'P'; }
  }

  /** A control prefix followed by a colon-free name, and then either nothing
      or more colon-separated text, carries exactly that name. */
  lemma ControlNameOf(prefix: string, name: string, tail: string)
    requires prefix == JoinPrefix || prefix == PresencePrefix || prefix == LeavePrefix
    requires ':' !in name
    requires tail == [] || tail[0] == ':'
    ensures IsControl(prefix + name + tail)
    ensures ControlName(prefix + name + tail) == name
  {
    var head := prefix[..|prefix| - 1];
    assert prefix == head + [':'];
    assert ':' !in head;
    assert prefix + name + tail == head + [':'] + name + tail;
    SecondFieldOf(head, name, tail);
  }

  /** A JOIN from another peer queues "<name> joined" then adds the peer, and
      answers with this peer's own PRESENCE; a JOIN carrying the own name (the
      loopback echo of one's own JOIN) does nothing at all. */
  lemma DecodeJoin(username: string, name: string, tail: string)
    requires ':' !in name
    requires tail == [] || tail[0] == ':'
    ensures name != username ==>
      Decode(username, JoinPacket(name) + tail)
        == Step([System(name + " joined"), Add(name)], Some(PresencePacket(username)))
    ensures name == username ==> Decode(username, JoinPacket(name) + tail) == Silent
  {
    ControlNameOf(JoinPrefix, name, tail);
  }

  /** A PRESENCE packet adds the name it carries and sends nothing. */
  lemma DecodePresence(username: string, name: string, tail: string)
    requires ':' !in name
    requires tail == [] || tail[0] == ':'
    ensures Decode(username, PresencePacket(name) + tail) == Step([Add(name)], None)
  {
    ControlNameOf(PresencePrefix, name, tail);
    ControlPrefixesExclusive(PresencePacket(name) + tail);
  }

  /** A LEAVE packet removes the name it carries and sends nothing. */
  lemma DecodeLeave(username: string, name: string, tail: string)
    requires ':' !in name
    requires tail == [] || tail[0] == ':'
    ensures Decode(username, LeavePacket(name) + tail) == Step([Remove(name)], None)
  {
    ControlNameOf(LeavePrefix, name, tail);
    ControlPrefixesExclusive(LeavePacket(name) + tail);
  }

  /** `__LEAVE__:a:b` removes `a`: the name is cut at the second colon. */
  lemma LeaveNameCutExample(username: string)
    ensures Decode(username, "__LEAVE__:a:b") == Step([Remove("a")], None)
  {
    var m := LeavePacket("a") + ":b";
    assert m == "__LEAVE__:a:b";
    DecodeLeave(username, "a", ":b");
  }

  /** A bare `__JOIN__:` names the empty user. */
  lemma EmptyJoinExample(username: string)
    requires username != ""
    ensures Decode(username, "__JOIN__:")
              == Step([System(" joined"), Add("")], Some(PresencePacket(username)))
  {
    var m := JoinPacket("") + [];
    assert m == "__JOIN__:";
    assert "" + " joined" == " joined";
    DecodeJoin(username, "", []);
  }

  /** A chat line round-trips: decoding `sender: text` gives back the sender
      and the text unchanged, tagged "me" exactly when the sender is the own
      user, as long as the sender holds no `": "` and no control prefix is a
      prefix of `sender + ":"`. */
  lemma {:induction false} ChatRoundTrip(username: string, sender: string, text: string)
    requires FirstSep(sender) == |sender|
    requires !IsControl(sender + ":")
    ensures Decode(username, ChatPacket(sender, text))
              == Step([Chat(sender, text, if sender == username then Me else Other)], None)
  {
    NoControlPrefix(sender, text);
    SplitSepOf(sender, text);
  }

  /** The condition of `ChatRoundTrip` is also necessary: when a control prefix
      is a prefix of `sender + ":"`, the chat line is taken for a control
      packet and yields no chat item. */
  lemma ChatNeedsNoControlPrefix(username: string, sender: string, text: string)
    requires IsControl(sender + ":")
    ensures forall it | it in Decode(username, ChatPacket(sender, text)).items :: !it.Chat?
  {
    var msg := ChatPacket(sender, text);
    assert msg[..|sender| + 1] == sender + ":";
    assert IsControl(msg);
  }

  /** Every control prefix ends in its only colon, so a chat line starts with
      one only if `sender + ":"` does. */
  lemma NoControlPrefix(sender: string, text: string)
    requires !IsControl(sender + ":")
    ensures !IsControl(ChatPacket(sender, text))
  {
    NotPrefixOfChat(JoinPrefix, sender, text);
    NotPrefixOfChat(PresencePrefix, sender, text);
    NotPrefixOfChat(LeavePrefix, sender, text);
  }

  lemma NotPrefixOfChat(p: string, sender: string, text: string)
    requires p == JoinPrefix || p == PresencePrefix || p == LeavePrefix
    requires !(p <= sender + ":")
    ensures !(p <= ChatPacket(sender, text))
  {
    var msg := ChatPacket(sender, text);
    assert msg[..|sender| + 1] == sender + ":";
    assert ':' !in p[..|p| - 1];
    if |p| <= |sender| + 1 {
      assert msg[..|p|] == (sender + ":")[..|p|];
    } else {
      assert msg[|sender|] == ':';
      assert p[|sender|] in p[..|p| - 1];
    }
  }

  /** Not starting with a control prefix is not enough for the round trip: a
      user named `__JOIN__` whose chat text has no colon is read by every peer
      as a JOIN of the user " <text>". */
  lemma ControlLookalikeSender(username: string, text: string)
    requires ':' !in text
    requires username != " " + text
    ensures !IsControl("__JOIN__")
    ensures Decode(username, ChatPacket("__JOIN__", text))
              == Step([System(" " + text + " joined"), Add(" " + text)], Some(PresencePacket(username)))
  {
    assert ChatPacket("__JOIN__", text) == JoinPacket(" " + text) + [];
    DecodeJoin(username, " " + text, []);
  }

  /** Self-echo suppression compares only up to the second colon: a peer whose
      own name `a:b` contains a colon takes the echo of its own JOIN for a JOIN
      of `a`, adds `a` and answers it. */
  lemma ColonNameEcho(a: string, b: string)
    requires ':' !in a
    ensures Decode(a + ":" + b, JoinPacket(a + ":" + b))
              == Step([System(a + " joined"), Add(a)], Some(PresencePacket(a + ":" + b)))
  {
    assert JoinPacket(a + ":" + b) == JoinPacket(a) + (":" + b);
    assert |a| < |a + ":" + b|;
    DecodeJoin(a + ":" + b, a, ":" + b);
  }

  /** A packet produces neither items nor a reply exactly when it matches no
      control prefix and holds no `": "`, or it is a JOIN carrying the own name. */
  lemma DecodeSilentIff(username: string, msg: string)
    ensures Decode(username, msg) == Silent <==>
      (!IsControl(msg) && FirstSep(msg) == |msg|)
      || (JoinPrefix <= msg && ControlName(msg) == username)
  {
    ControlPrefixesExclusive(msg);
  }

  /** The queue items the receiver produces for `packets`, received in order. */
  function ItemsOf(username: string, packets: seq<string>): (items: seq<Item>)
    ensures |items| <= 2 * |packets|
  {
    if packets == [] then []
    else Decode(username, packets[0]).items + ItemsOf(username, packets[1..])
  }

  /** The reply of one step, as a sequence of zero or one packets. */
  function Replies(step: Step): seq<string> {
    if step.reply.Some? then [step.reply.value] else []
  }

  /** The packets the receiver sends back for `packets`, at most one per
      packet received. */
  function RepliesOf(username: string, packets: seq<string>): (replies: seq<string>)
    ensures |replies| <= |packets|
  {
    if packets == [] then []
    else Replies(Decode(username, packets[0])) + RepliesOf(username, packets[1..])
  }

  /** The receiver only ever answers with the own PRESENCE. */
  lemma {:induction false} RepliesArePresence(username: string, packets: seq<string>)
    ensures forall p | p in RepliesOf(username, packets) :: p == PresencePacket(username)
    decreases |packets|
  {
    if packets != [] {
      RepliesArePresence(username, packets[1..]);
    }
  }

  /** Receiving `p` then `q` queues the items of `p` followed by those of `q`
      and sends the replies in the same order: nothing is reordered or merged. */
  lemma {:induction false} StreamConcat(username: string, p: seq<string>, q: seq<string>)
    ensures ItemsOf(username, p + q) == ItemsOf(username, p) + ItemsOf(username, q)
    ensures RepliesOf(username, p + q) == RepliesOf(username, p) + RepliesOf(username, q)
    decreases |p|
  {
    if p != [] {
      assert (p + q)[0] == p[0];
      assert (p + q)[1..] == p[1..] + q;
      StreamConcat(username, p[1..], q);
      var step := Decode(username, p[0]);
      AppendAssoc(step.items, ItemsOf(username, p[1..]), ItemsOf(username, q));
      AppendAssoc(Replies(step), RepliesOf(username, p[1..]), RepliesOf(username, q));
    } else {
      assert p + q == q;
    }
  }

  /** A packet the receiver does not recognise is skipped, and the packets
      after it are handled as if it had never arrived. */
  lemma UnrecognizedSkipped(username: string, junk: string, rest: seq<string>)
    requires !IsControl(junk) && FirstSep(junk) == |junk|
    ensures ItemsOf(username, [junk] + rest) == ItemsOf(username, rest)
    ensures RepliesOf(username, [junk] + rest) == RepliesOf(username, rest)
  {
    assert ([junk] + rest)[0] == junk;
    assert ([junk] + rest)[1..] == rest;
  }
}
