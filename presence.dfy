/** What the queue consumer does with the receiver's items: `add` and `remove`
    items update the set of active users, `chat` and `system` items are shown
    in the chat area, and the user list shows the set in sorted order. */
module Presence {
  import opened Text
  import opened Protocol

  /** The effect of one queue item on the active users: `add` inserts its user,
      `remove` discards its user (absent or not), and no one else changes. */
  function Apply(users: set<string>, item: Item): (r: set<string>)
    ensures item.Chat? || item.System? ==> r == users
    ensures item.Add? ==> item.user in r && r - {item.user} == users - {item.user}
    ensures item.Remove? ==> item.user !in r && r - {item.user} == users - {item.user}
  {
    match item
    case Add(user) => users + {user}
    case Remove(user) => users - {user}
    case _ => users
  }

  /** The active users after applying `items` in queue order; the last item
      has the last word on its own user. */
  function ApplyAll(users: set<string>, items: seq<Item>): (r: set<string>)
    ensures items == [] ==> r == users
    ensures items != [] && items[|items| - 1].Add? ==> items[|items| - 1].user in r
    ensures items != [] && items[|items| - 1].Remove? ==> items[|items| - 1].user !in r
    decreases |items|
  {
    if items == [] then users else ApplyAll(Apply(users, items[0]), items[1..])
  }

  /** What one item says about `x`: present (`add`), absent (`remove`), or
      nothing. */
  function Verdict(x: string, item: Item): Option<bool> {
    match item
    case Add(user) => if user == x then Some(true) else None
    case Remove(user) => if user == x then Some(false) else None
    case _ => None
  }

  /** The verdict of the last item in `items` that says anything about `x`. */
  function LastWord(x: string, items: seq<Item>): Option<bool> {
    if items == [] then None
    else
      var v := Verdict(x, items[|items| - 1]);
      if v.Some? then v else LastWord(x, items[..|items| - 1])
  }

  lemma {:induction false} ApplyAllConcat(users: set<string>, xs: seq<Item>, ys: seq<Item>)
    ensures ApplyAll(users, xs + ys) == ApplyAll(ApplyAll(users, xs), ys)
    decreases |xs|
  {
    if xs != [] {
      assert (xs + ys)[1..] == xs[1..] + ys;
      ApplyAllConcat(Apply(users, xs[0]), xs[1..], ys);
    } else {
      assert xs + ys == ys;
    }
  }

  /** Draining the queue in FIFO order leaves `x` active exactly when the last
      `add`/`remove` naming `x` was an `add`, or, when none names it, when `x`
      was active before. */
  lemma {:induction false} MemberIffLastWord(users: set<string>, items: seq<Item>, x: string)
    ensures x in ApplyAll(users, items) <==>
      (match LastWord(x, items) case Some(present) => present case None => x in users)
    decreases |items|
  {
    if items != [] {
      var init := items[..|items| - 1];
      var last := items[|items| - 1];
      assert items == init + [last];
      ApplyAllConcat(users, init, [last]);
      assert ApplyAll(ApplyAll(users, init), [last]) == Apply(ApplyAll(users, init), last);
      MemberIffLastWord(users, init, x);
    }
  }

  /** Adding a user twice in a row is the same as adding it once, wherever in
      the queue that happens. */
  lemma AddTwiceIsAddOnce(users: set<string>, xs: seq<Item>, user: string, ys: seq<Item>)
    ensures ApplyAll(users, xs + [Add(user), Add(user)] + ys)
         == ApplyAll(users, xs + [Add(user)] + ys)
  {
    var before := ApplyAll(users, xs);
    ApplyAllConcat(users, xs + [Add(user), Add(user)], ys);
    ApplyAllConcat(users, xs, [Add(user), Add(user)]);
    ApplyAllConcat(users, xs + [Add(user)], ys);
    ApplyAllConcat(users, xs, [Add(user)]);
    assert ApplyAll(before, [Add(user), Add(user)]) == before + {user};
    assert ApplyAll(before, [Add(user)]) == before + {user};
  }

  /** The `add` and `remove` items of `items`, in order. */
  function Memberships(items: seq<Item>): seq<Item> {
    if items == [] then []
    else (if items[0].Add? || items[0].Remove? then [items[0]] else []) + Memberships(items[1..])
  }

  /** An item as shown in the chat area: itself for `chat` and `system`,
      nothing for `add` and `remove`. */
  function ShownOne(item: Item): seq<Item> {
    if item.Chat? || item.System? then [item] else []
  }

  /** The `chat` and `system` items of `items`, in order: what the consumer
      shows in the chat area. */
  function Shown(items: seq<Item>): (r: seq<Item>)
    ensures |r| + |Memberships(items)| == |items|
  {
    if items == [] then []
    else ShownOne(items[0]) + Shown(items[1..])
  }

  /** The chat area shows only chat and system items, each taken from the
      queue. */
  lemma {:induction false} ShownKinds(items: seq<Item>)
    ensures forall it | it in Shown(items) :: (it.Chat? || it.System?) && it in items
  {
    if items != [] {
      ShownKinds(items[1..]);
    }
  }

  /** Every chat and system item of the queue is shown. */
  lemma {:induction false} ShownComplete(items: seq<Item>)
    ensures forall it | it in items && (it.Chat? || it.System?) :: it in Shown(items)
  {
    if items != [] {
      ShownComplete(items[1..]);
      assert forall it | it in items :: it == items[0] || it in items[1..];
    }
  }

  /** The chat area shows each item of a queue as `ShownOne` does, in queue
      order: showing `xs + ys` is showing `xs` and then `ys`. */
  lemma {:induction false} ShownConcat(xs: seq<Item>, ys: seq<Item>)
    ensures Shown(xs + ys) == Shown(xs) + Shown(ys)
    ensures forall x :: Shown([x]) == ShownOne(x)
    decreases |xs|
  {
    if xs != [] {
      assert (xs + ys)[1..] == xs[1..] + ys;
      ShownConcat(xs[1..], ys);
      AppendAssoc(ShownOne(xs[0]), Shown(xs[1..]), Shown(ys));
    } else {
      assert xs + ys == ys;
    }
    forall x ensures Shown([x]) == ShownOne(x) {
      assert [x][1..] == [];
    }
  }

  /** Chat and system items never touch the active users: only the `add` and
      `remove` items of a queue decide its effect. */
  lemma {:induction false} OnlyMembershipsCount(users: set<string>, items: seq<Item>)
    ensures ApplyAll(users, items) == ApplyAll(users, Memberships(items))
    decreases |items|
  {
    if items != [] {
      OnlyMembershipsCount(Apply(users, items[0]), items[1..]);
      var m := Memberships(items);
      if items[0].Add? || items[0].Remove? {
        assert m == [items[0]] + Memberships(items[1..]);
        assert m[0] == items[0] && m[1..] == Memberships(items[1..]);
      } else {
        assert m == Memberships(items[1..]);
      }
    }
  }

  /** The presence exchange between two peers `a` and `b`, each already listing
      itself: `b` receiving `a`'s JOIN adds `a` and answers with `b`'s PRESENCE;
      `a` ignores the loopback echo of its own JOIN and adds `b` on that
      PRESENCE; afterwards both list exactly `{a, b}`. */
  lemma JoinHandshake(a: string, b: string)
    requires a != b && ':' !in a && ':' !in b
    ensures Decode(a, JoinPacket(a)) == Silent
    ensures Decode(b, JoinPacket(a)).reply == Some(PresencePacket(b))
    ensures ApplyAll({b}, Decode(b, JoinPacket(a)).items) == {a, b}
    ensures ApplyAll({a}, Decode(a, PresencePacket(b)).items) == {a, b}
  {
    assert JoinPacket(a) + [] == JoinPacket(a);
    assert PresencePacket(b) + [] == PresencePacket(b);
    DecodeJoin(a, a, []);
    DecodeJoin(b, a, []);
    DecodePresence(a, b, []);
    assert ApplyAll({b}, [System(a + " joined"), Add(a)]) == ApplyAll({b}, [Add(a)]);
  }

  /** A peer hearing its own PRESENCE re-adds itself, which changes nothing. */
  lemma PresenceEcho(username: string)
    requires ':' !in username
    ensures forall users | username in users ::
              ApplyAll(users, Decode(username, PresencePacket(username)).items) == users
  {
    assert PresencePacket(username) + [] == PresencePacket(username);
    DecodePresence(username, username, []);
  }

  /** A peer whose own name `a:b` holds a colon, hearing its own PRESENCE,
      adds the phantom user `a`. */
  lemma ColonPresenceEcho(a: string, b: string)
    requires ':' !in a
    ensures Decode(a + ":" + b, PresencePacket(a + ":" + b)) == Step([Add(a)], None)
    ensures ApplyAll({a + ":" + b}, Decode(a + ":" + b, PresencePacket(a + ":" + b)).items)
              == {a + ":" + b, a}
  {
    assert PresencePacket(a + ":" + b) == PresencePacket(a) + (":" + b);
    DecodePresence(a + ":" + b, a, ":" + b);
  }

  /** The own name is not protected: a LEAVE carrying it, sent by another peer
      under the same name, removes it from the active users. */
  lemma OwnNameRemovable(users: set<string>, username: string)
    requires ':' !in username
    ensures username !in ApplyAll(users, Decode(username, LeavePacket(username)).items)
  {
    assert LeavePacket(username) + [] == LeavePacket(username);
    DecodeLeave(username, username, []);
    assert ApplyAll(users, [Remove(username)]) == users - {username};
  }

  /** Names in strictly increasing code-point order (so each appears once). */
  predicate StrictlySorted(names: seq<string>) {
    forall i, j :: 0 <= i < j < |names| ==> LexLess(names[i], names[j])
  }

  /** `names` is the user list drawn for `users`: `sorted(users)`. */
  predicate ListsExactly(names: seq<string>, users: set<string>) {
    && StrictlySorted(names)
    && (forall x | x in names :: x in users)
    && (forall x | x in users :: x in names)
  }

  /** The smallest name in a non-empty set. */
  method MinOf(users: set<string>) returns (m: string)
    requires users != {}
    ensures m in users
    ensures forall x | x in users && x != m :: LexLess(m, x)
  {
    m :| m in users;
    var rest := users - {m};
    while rest != {}
      invariant rest <= users && m in users && m !in rest
      invariant forall x | x in users - rest && x != m :: LexLess(m, x)
      decreases rest
    {
      var x :| x in rest;
      if LexLess(x, m) {
        forall y | y in users - rest && y != x
          ensures LexLess(x, y)
        {
          if y != m { LexLessTransitive(x, m, y); }
        }
        m := x;
      } else {
        LexLessTotal(x, m);
      }
      rest := rest - {x};
    }
  }

  /** `sorted(users)`: each active user once, in increasing order. */
  method SortedUsers(users: set<string>) returns (names: seq<string>)
    ensures ListsExactly(names, users)
    ensures |names| == |users|
  {
    names := [];
    var rest := users;
    while rest != {}
      invariant rest <= users
      invariant StrictlySorted(names)
      invariant forall x :: x in names <==> x in users && x !in rest
      invariant forall x, y | x in names && y in rest :: LexLess(x, y)
      invariant |names| + |rest| == |users|
      decreases rest
    {
      var m := MinOf(rest);
      names := names + [m];
      rest := rest - {m};
    }
  }

  /** The sorted listing of a set is unique, so the user list is a function of
      the active users alone. */
  lemma {:induction false} ListingUnique(a: seq<string>, b: seq<string>, users: set<string>)
    requires ListsExactly(a, users) && ListsExactly(b, users)
    ensures a == b
    decreases |a|
  {
    if a == [] {
      if b != [] {
        FirstListed(b, users);
        assert false;
      }
    } else {
      assert a[0] in b;
      assert b != [];
      assert b[0] in a;
      if a[0] != b[0] {
        var i :| 0 <= i < |a| && a[i] == b[0];
        var j :| 0 <= j < |b| && b[j] == a[0];
        assert LexLess(a[0], b[0]);
        assert LexLess(b[0], a[0]);
        LexLessAsymmetric(a[0], b[0]);
      }
      var rest := users - {a[0]};
      forall x ensures x in a[1..] <==> x in rest {
        if x in a[1..] {
          var k :| 1 <= k < |a| && a[k] == x;
          LexLessIrreflexive(a[0]);
        }
      }
      forall x ensures x in b[1..] <==> x in rest {
        if x in b[1..] {
          var k :| 1 <= k < |b| && b[k] == x;
          LexLessIrreflexive(b[0]);
        }
      }
      ListingUnique(a[1..], b[1..], rest);
    }
  }

  lemma FirstListed(names: seq<string>, users: set<string>)
    requires ListsExactly(names, users) && names != []
    ensures names[0] in users
  {
    assert names[0] in names;
  }
}
