/** The state `MessengerApp` keeps once its window, sockets and receiver thread
    are set aside: the own name, the receiver's queue, the set of active users
    and the user list drawn from it, the lines shown in the chat area, and the
    packets handed to the socket. */
module Messenger {
  import opened Text
  import opened Protocol
  import opened Presence

  class MessengerApp {
    /** The display name; empty until the chat is started. */
    var username: string
    /** Cleared when the window closes; the receiver loop runs while it is set. */
    var running: bool
    /** Whether the socket exists (and with it the receiver thread). */
    var connected: bool
    /** The message queue between the receiver and the consumer, oldest first. */
    var queue: seq<Item>
    var activeUsers: set<string>
    /** The names in the "Online Users" list, top to bottom. */
    var userList: seq<string>
    /** The chat and system items shown in the chat area, oldest first. */
    var transcript: seq<Item>
    /** Every packet passed to the socket, oldest first. */
    var outbox: seq<string>

    /** The user list always shows the active users, sorted, each once; a
        connected peer has a non-empty name. */
    ghost predicate Valid()
      reads this
    {
      && ListsExactly(userList, activeUsers)
      && (connected ==> username != "")
    }

    constructor ()
      ensures Valid()
      ensures username == "" && running && !connected
      ensures queue == [] && activeUsers == {} && userList == []
      ensures transcript == [] && outbox == []
    {
      username := "";
      running := true;
      connected := false;
      queue := [];
      activeUsers := {};
      userList := [];
      transcript := [];
      outbox := [];
    }

    /** Hands one packet to the socket. */
    method SendPacket(text: string)
      requires connected
      modifies this`outbox
      ensures outbox == old(outbox) + [text]
    {
      outbox := outbox + [text];
    }

    /** Redraws the user list from the active users. */
    method RefreshUserList()
      modifies this`userList
      ensures ListsExactly(userList, activeUsers)
    {
      userList := SortedUsers(activeUsers);
    }

    /** `start_chat`: a blank name does nothing; otherwise the stripped name
        becomes the own name, the socket is opened, the own name is made
        active, the JOIN is broadcast, and the queue is drained. */
    method StartChat(entry: string)
      requires Valid()
      modifies this`username, this`connected, this`queue, this`activeUsers
      modifies this`userList, this`transcript, this`outbox
      ensures Valid()
      ensures Strip(entry) == [] ==>
        && username == old(username) && connected == old(connected)
        && activeUsers == old(activeUsers) && userList == old(userList)
        && queue == old(queue) && transcript == old(transcript)
        && outbox == old(outbox)
      ensures Strip(entry) != [] ==>
        && username == Strip(entry) && connected
        && outbox == old(outbox) + [JoinPacket(username)]
        && activeUsers == ApplyAll(old(activeUsers) + {username}, old(queue))
        && queue == [] && transcript == old(transcript) + Shown(old(queue))
    {
      var name := Strip(entry);
      if name == [] {
        return;
      }
      ghost var q0, t0, o0 := queue, transcript, outbox;
      username := name;
      connected := true;
      activeUsers := activeUsers + {username};
      RefreshUserList();
      SendPacket(JoinPacket(username));
      assert queue == q0 && transcript == t0 && outbox == o0 + [JoinPacket(name)];
      ProcessQueue();
    }

    /** One pass of the receiver loop: the items `msg` decodes to join the
        queue, and a reply, if any, is sent. */
    method Receive(msg: string)
      requires connected
      modifies this`queue, this`outbox
      ensures queue == old(queue) + Decode(username, msg).items
      ensures outbox == old(outbox) + Replies(Decode(username, msg))
    {
      var step := Decode(username, msg);
      queue := queue + step.items;
      if step.reply.Some? {
        SendPacket(step.reply.value);
      }
    }

    /** The receiver loop over the packets that arrive, in arrival order, for
        as long as the window is open. */
    method Receiver(packets: seq<string>)
      requires connected
      modifies this`queue, this`outbox
      ensures running ==> queue == old(queue) + ItemsOf(username, packets)
      ensures running ==> outbox == old(outbox) + RepliesOf(username, packets)
      ensures !running ==> queue == old(queue) && outbox == old(outbox)
    {
      if !running {
        return;
      }
      var rest := packets;
      while rest != []
        invariant username == old(username)
        invariant queue + ItemsOf(username, rest) == old(queue) + ItemsOf(username, packets)
        invariant outbox + RepliesOf(username, rest) == old(outbox) + RepliesOf(username, packets)
        decreases |rest|
      {
        ghost var q, o := queue, outbox;
        ghost var step := Decode(username, rest[0]);
        Receive(rest[0]);
        AppendAssoc(q, step.items, ItemsOf(username, rest[1..]));
        AppendAssoc(o, Replies(step), RepliesOf(username, rest[1..]));
        rest := rest[1..];
      }
    }

    /** `process_queue`: drains the queue oldest first; `add` and `remove`
        items update the active users and redraw the list, `chat` and `system`
        items are shown. */
    method ProcessQueue()
      requires Valid()
      modifies this`queue, this`activeUsers, this`userList, this`transcript
      ensures Valid()
      ensures queue == []
      ensures activeUsers == ApplyAll(old(activeUsers), old(queue))
      ensures transcript == old(transcript) + Shown(old(queue))
    {
      while queue != []
        invariant Valid()
        invariant ApplyAll(activeUsers, queue) == ApplyAll(old(activeUsers), old(queue))
        invariant transcript + Shown(queue) == old(transcript) + Shown(old(queue))
        decreases |queue|
      {
        var item := queue[0];
        var rest := queue[1..];
        assert Shown(queue) == ShownOne(item) + Shown(rest);
        AppendAssoc(transcript, ShownOne(item), Shown(rest));
        queue := rest;
        Handle(item);
      }
    }

    /** The body of `process_queue` for one item. */
    method Handle(item: Item)
      requires Valid()
      modifies this`activeUsers, this`userList, this`transcript
      ensures Valid()
      ensures activeUsers == Apply(old(activeUsers), item)
      ensures transcript == old(transcript) + ShownOne(item)
    {
      match item {
        case Chat(_, _, _) =>
          transcript := transcript + [item];
        case System(_) =>
          transcript := transcript + [item];
        case Add(user) =>
          activeUsers := activeUsers + {user};
          RefreshUserList();
        case Remove(user) =>
          activeUsers := activeUsers - {user};
          RefreshUserList();
      }
    }

    /** `send_msg`: stripped, non-blank text goes out as `<own name>: <text>`;
        blank text sends nothing. */
    method SendMsg(entry: string)
      requires connected
      modifies this`outbox
      ensures Strip(entry) == [] ==> outbox == old(outbox)
      ensures Strip(entry) != [] ==> outbox == old(outbox) + [ChatPacket(username, Strip(entry))]
    {
      var text := Strip(entry);
      if text == [] {
        return;
      }
      SendPacket(ChatPacket(username, text));
    }

    /** `on_close`: stops the receiver and broadcasts LEAVE; before the chat
        was started there is no socket, the send fails and is ignored. */
    method OnClose()
      modifies this`running, this`outbox
      ensures !running
      ensures connected ==> outbox == old(outbox) + [LeavePacket(username)]
      ensures !connected ==> outbox == old(outbox)
    {
      running := false;
      if connected {
        SendPacket(LeavePacket(username));
      }
    }
  }
}
