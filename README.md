# LAN Messenger: protocol and presence model

A Dafny model of the logic in `MessengerApp` (multi_chat.py), a multicast LAN
chat peer. It covers the text protocol and the presence bookkeeping and
leaves out the windows and sockets.

- **Text** (`text.dfy`) holds the Python `str` operations the protocol
  relies on:
  - `strip()` over Python's whitespace set;
  - `split(":")[1]`;
  - the test `": " in msg`;
  - `split(": ", 1)`;
  - the code-point order that `sorted` uses.
- **Protocol** (`protocol.dfy`) holds three things:
  - the packets a peer sends: `__JOIN__:<name>`, `__PRESENCE__:<name>`,
    `__LEAVE__:<name>` and `<name>: <text>`;
  - the queue items (`chat`, `system`, `add`, `remove`);
  - `Decode`, one pass of the receiver loop. It maps a received packet to
    the items it queues and the reply it sends, if any.

  Lemmas state the order in which prefixes are tested, JOIN handling for a
  foreign name and for the own name, where a name is cut, the chat split
  and its `me`/`other` tag, the chat round trip and its limits, and how the
  receiver behaves over a stream of packets.
- **Presence** (`presence.dfy`) is the effect of `add`/`remove` items on the
  set of active users. Draining the queue in FIFO order makes a user active
  exactly when the last `add`/`remove` naming them was an `add`, or, when
  none names them, when they were already active. The user
  list is the set in strictly increasing order, and that listing is unique.
- **Messenger** (`messenger.dfy`) is the class `MessengerApp`. Its fields are
  the own name, the running flag, whether the socket exists, the message
  queue, the active users, the user list, the chat-area transcript and the
  log of packets sent. Its methods follow `start_chat`, the receiver loop,
  `process_queue`, `refresh_user_list`, `send_msg`, `send_packet` and
  `on_close`, and keep the invariant that the user list shows exactly the
  active users, sorted.

Three behaviours of the code worth knowing:
- A packet that matches no control prefix and holds no `": "` is dropped
  without a trace (multi_chat.py:211-229 has no else branch). No item is
  queued for it (`DecodeSilentIff`, `UnrecognizedSkipped`).
- The own name is not protected in the set of active users. A LEAVE that
  carries it removes it, when the name has no colon (`OwnNameRemovable`).
- Any exception ends the receiver loop (multi_chat.py:231-232). It is not
  reported and the loop does not carry on.

Limits of the protocol proved as they stand:
- A sender named `__JOIN__` fails the chat round trip even though it does
  not start with a control prefix (`ControlLookalikeSender`). The round
  trip needs the stronger condition that no control prefix is a prefix of
  `sender + ":"`: it is sufficient (`ChatRoundTrip`) and necessary
  (`ChatNeedsNoControlPrefix`).
- Suppressing the echo of one's own JOIN fails for names that contain a
  colon (`ColonNameEcho`).

A name with a colon also leaves a phantom user: a peer named `a:b` that
hears its own PRESENCE adds the user `a` (`ColonPresenceEcho`).

## Model

| member | source | states |
|---|---|---|
| `Text.Strip` | multi_chat.py:181 | `strip()` returns a result no longer than its input that neither starts nor ends with whitespace, and is empty exactly when the input is all whitespace |
| `Text.StripIsSlice` | multi_chat.py:259 | `strip()` removes whitespace only at the ends: its result is the slice of the input between a whitespace prefix and a whitespace suffix, with nothing inside it removed or changed |
| `Text.SecondField` | multi_chat.py:212 | `split(":")[1]` never contains a colon |
| `Text.SecondFieldOf` | multi_chat.py:212 | `split(":")[1]` of `head:field` followed by nothing or by `:...` is `field`, provided `head` and `field` contain no colon |
| `Text.FirstSep` | multi_chat.py:226 | returns the index of the first `": "`, with none before it, or the length of the input when `": "` does not occur |
| `Text.SplitSep` | multi_chat.py:227 | `split(": ", 1)` gives a sender and a text that rejoin to the input around `": "`, and the sender contains no `": "` |
| `Text.SplitSepOf` | multi_chat.py:227 | splitting `a + ": " + b` gives back `(a, b)` when `a` contains no `": "` |
| `Text.LexLess` | multi_chat.py:254 | the order `sorted` uses puts a proper prefix before the longer string and never puts a string before itself |
| `Text.LexLessTransitive` | multi_chat.py:254 | the string order used by `sorted` is transitive |
| `Text.LexLessTotal` | multi_chat.py:254 | any two distinct strings are ordered one way or the other |
| `Text.LexLessAsymmetric` | multi_chat.py:254 | the string order is asymmetric |
| `Protocol.JoinPacket` | multi_chat.py:191 | the JOIN packet is `__JOIN__:` followed by exactly the name; for a name without a colon, `DecodeJoin` decodes it back |
| `Protocol.PresencePacket` | multi_chat.py:216 | the PRESENCE packet is `__PRESENCE__:` followed by exactly the name; for a name without a colon, `DecodePresence` decodes it back |
| `Protocol.LeavePacket` | multi_chat.py:306 | the LEAVE packet is `__LEAVE__:` followed by exactly the name; for a name without a colon, `DecodeLeave` decodes it back |
| `Protocol.ChatPacket` | multi_chat.py:262 | the chat packet is the name, then `": "`, then exactly the text; `ChatRoundTrip` decodes it back |
| `Protocol.IsControl` | multi_chat.py:211-222 | a packet that passes one of the three `startswith` tests contains a colon, so `split(":")[1]` never fails on it |
| `Protocol.ControlName` | multi_chat.py:212 | the name taken from a control packet contains no colon |
| `Protocol.Decode` | multi_chat.py:211-229 | one received packet queues at most two items, and sends a reply only for a JOIN; that reply is always the own PRESENCE |
| `Protocol.ControlPrefixesExclusive` | multi_chat.py:211-224 | no packet starts with two different control prefixes, so only the chat test depends on the order in which prefixes are tried |
| `Protocol.ControlNameOf` | multi_chat.py:211-224 | a control prefix, a colon-free name, then nothing or `:...` is a control packet carrying exactly that name |
| `Protocol.DecodeJoin` | multi_chat.py:211-216 | for a name without a colon: a JOIN naming someone else queues exactly "<name> joined" then `add name`, and replies with exactly the own PRESENCE; a JOIN naming oneself queues nothing and sends nothing |
| `Protocol.DecodePresence` | multi_chat.py:218-220 | for a name without a colon, a PRESENCE queues exactly `add name` and sends nothing |
| `Protocol.DecodeLeave` | multi_chat.py:222-224 | for a name without a colon, a LEAVE queues exactly `remove name` and sends nothing |
| `Protocol.LeaveNameCutExample` | multi_chat.py:222-224 | `__LEAVE__:a:b` removes `a`: the name is cut at the second colon |
| `Protocol.EmptyJoinExample` | multi_chat.py:211-216 | a bare `__JOIN__:` names the empty user, who is announced, added and answered |
| `Protocol.ChatItemTag` | multi_chat.py:226-229 | a chat item comes only from a packet with no control prefix, and is tagged `me` exactly when its sender is the own name |
| `Protocol.ChatRoundTrip` | multi_chat.py:226-229 | decoding `sender: text` gives exactly one chat item with that sender and that text, tagged `me` exactly when the sender is the own name, and no reply; this holds when the sender contains no `": "` and no control prefix is a prefix of `sender + ":"` |
| `Protocol.ChatNeedsNoControlPrefix` | multi_chat.py:211-229 | when a control prefix is a prefix of `sender + ":"`, decoding `sender: text` yields no chat item at all, so the round trip fails |
| `Protocol.NoControlPrefix` | multi_chat.py:211-222 | a chat packet escapes all three prefix tests when `sender + ":"` does |
| `Protocol.ControlLookalikeSender` | multi_chat.py:211-216 | when `text` has no colon and the receiver is not named `" " + text`, a chat line from a sender named `__JOIN__` is taken for a JOIN of `" " + text`: it is announced and added, and the receiving peer replies |
| `Protocol.ColonNameEcho` | multi_chat.py:212-213 | a peer named `a:b` does not recognise the echo of its own JOIN: it adds `a` and replies |
| `Protocol.DecodeSilentIff` | multi_chat.py:211-229 | a packet has no effect at all exactly when it matches no prefix and contains no `": "`, or when it is a JOIN carrying the own name |
| `Protocol.ItemsOf` | multi_chat.py:206-229 | the receiver queues at most two items per packet received |
| `Protocol.RepliesOf` | multi_chat.py:206-229 | the receiver sends at most one reply per packet received |
| `Protocol.RepliesArePresence` | multi_chat.py:216 | every packet the receiver sends is the own PRESENCE |
| `Protocol.StreamConcat` | multi_chat.py:206-229 | receiving `p` then `q` queues the items of `p` followed by those of `q`, and sends the replies in the same order |
| `Protocol.UnrecognizedSkipped` | multi_chat.py:211-229 | an unrecognised packet changes neither the items queued nor the replies sent for the packets that follow it |
| `Presence.Apply` | multi_chat.py:239-248 | `add` makes its user active and `remove` makes its user inactive, whether or not it was active before; chat and system items change nothing; no other user changes |
| `Presence.ApplyAll` | multi_chat.py:235-248 | draining the queue in FIFO order: an empty queue changes nothing, and the last item, if it is an `add` or a `remove`, decides whether its user ends up active |
| `Presence.ApplyAllConcat` | multi_chat.py:235-248 | draining `xs + ys` is draining `xs` and then `ys` |
| `Presence.MemberIffLastWord` | multi_chat.py:235-248 | after the queue is drained, `x` is active exactly when the last `add`/`remove` naming `x` was an `add`, or when none names it and `x` was active before |
| `Presence.AddTwiceIsAddOnce` | multi_chat.py:243-245 | two adjacent `add u` items have the same effect as one, anywhere in the queue |
| `Presence.Shown` | multi_chat.py:239-242 | the chat area receives as many items as the queue holds, minus its `add`/`remove` items |
| `Presence.ShownKinds` | multi_chat.py:239-242 | only chat and system items reach the chat area, each taken from the queue |
| `Presence.ShownComplete` | multi_chat.py:239-242 | every chat and system item of the queue reaches the chat area |
| `Presence.ShownConcat` | multi_chat.py:235-242 | a single item is shown as itself if it is a chat or system item and not at all otherwise, and showing `xs + ys` is showing `xs` then `ys`; so the chat area gets each chat and system item once, in queue order |
| `Presence.OnlyMembershipsCount` | multi_chat.py:239-248 | the effect of a queue on the active users is the effect of its `add`/`remove` items alone |
| `Presence.JoinHandshake` | multi_chat.py:211-220 | for distinct names `a` and `b` without a colon, in the exchange between the two peers, each already listing only itself: `a` ignores its own JOIN; `b` answers it with its PRESENCE and ends with `{a, b}`; `a` ends with `{a, b}` on that PRESENCE |
| `Presence.PresenceEcho` | multi_chat.py:218-220 | for an own name without a colon, a peer that hears its own PRESENCE re-adds itself, which changes nothing |
| `Presence.ColonPresenceEcho` | multi_chat.py:218-220 | a peer named `a:b` (with `a` colon-free) that hears its own PRESENCE adds the phantom user `a`, so its set `{a:b}` becomes `{a:b, a}` |
| `Presence.OwnNameRemovable` | multi_chat.py:222-224 | for an own name without a colon, a LEAVE carrying it removes it from the active users |
| `Presence.MinOf` | multi_chat.py:254 | returns a member of the set smaller than all the other members |
| `Presence.SortedUsers` | multi_chat.py:254 | `sorted(active_users)` lists each active user exactly once, in strictly increasing order, and nothing else |
| `Presence.ListingUnique` | multi_chat.py:252-256 | two sorted listings of the same set are equal, so the user list depends only on the active users |
| `Messenger.MessengerApp.constructor` | multi_chat.py:43-48 | a new app has an empty name, is running, has no socket, and has an empty queue, empty active users, empty list, empty transcript and empty outbox |
| `Messenger.MessengerApp.SendPacket` | multi_chat.py:265-266 | appends the packet to the outbox |
| `Messenger.MessengerApp.RefreshUserList` | multi_chat.py:252-256 | the user list becomes the active users, sorted, each once |
| `Messenger.MessengerApp.StartChat` | multi_chat.py:180-193 | a blank name changes nothing; otherwise the stripped name becomes the own name, the socket exists, exactly one JOIN for that name is sent, the own name is added before the queue is drained, and the queue is drained |
| `Messenger.MessengerApp.Receive` | multi_chat.py:208-229 | one received packet appends its decoded items to the queue and its reply, if any, to the outbox |
| `Messenger.MessengerApp.Receiver` | multi_chat.py:205-232 | while running, the packets' items are queued in arrival order and their replies are sent in the same order; once stopped, nothing happens |
| `Messenger.MessengerApp.ProcessQueue` | multi_chat.py:234-250 | empties the queue; the active users become the FIFO application of its items; its chat and system items are appended to the transcript in order; the user list stays the sorted active users |
| `Messenger.MessengerApp.Handle` | multi_chat.py:236-248 | one dequeued item updates the active users as `Apply` does, or is shown |
| `Messenger.MessengerApp.SendMsg` | multi_chat.py:258-263 | blank text sends nothing; otherwise exactly `<own name>: <stripped text>` is sent |
| `Messenger.MessengerApp.OnClose` | multi_chat.py:303-310 | stops the receiver; sends the own LEAVE when the socket exists, and nothing otherwise |

## Left out

- The tkinter interface is not modelled:
  - the login page, `build_chat_ui` and the theme;
  - the drawing in `show_message` and `show_system_msg`, which the
    transcript stands in for;
  - the scrolling;
  - `root.destroy`;
  - the icon put before each name in the user list (a name is drawn with
    one icon when it is the own name and with another otherwise).
- `root.after(100, self.process_queue)` is not modelled. It re-runs the
  consumer every 100 ms; each call of `ProcessQueue` models one run.
- Sockets are not modelled: `network_setup`, the multicast group, `recvfrom`,
  `sendto` and `sock.close`.
  - Sending is appending to the outbox.
  - Receiving is the sequence of packets given to `Receiver`.
  - `connected` stands for "the socket exists".
- The receiver thread, interleaving, and the thread safety of `queue.Queue`
  are not modelled. The receiver and the consumer run one after the other
  in the model. The running flag is read once per run of `Receiver`, not
  between packets.
- UTF-8 decoding, the 1024-byte `BUFFER_SIZE` and the bare `except: break`
  are not modelled. Packets are strings, and a failed decode or receive,
  which ends the loop, is not represented.
- app.py (the Flask/Socket.IO bridge) is not part of this model.
