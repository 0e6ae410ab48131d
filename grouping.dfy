/** The pure specification of the response envelope: the messages of a
    thread grouped by role, each role's texts in chronological order, the
    roles listed in the order a Python dict would iterate them (the order in
    which each role first occurs). */
module Grouping {
  import opened Messages

  /** A Python dict from role to list of texts: `keys` is its insertion
      order, `lists` its contents. */
  datatype Dict = Dict(keys: seq<string>, lists: map<string, seq<string>>)

  /** The distinct roles that occur in `msgs`. */
  function Roles(msgs: seq<Msg>): set<string> {
    if msgs == [] then {} else {msgs[0].role} + Roles(msgs[1..])
  }

  /** The texts of the messages with role `role`, in input order: the filter
      of `msgs` by role, mapped to text. */
  function TextsOf(msgs: seq<Msg>, role: string): seq<string>
    requires AllReadable(msgs)
  {
    if msgs == [] then []
    else (if msgs[0].role == role then [TextOf(msgs[0])] else []) + TextsOf(msgs[1..], role)
  }

  /** Each occurring role mapped to its texts. */
  function Group(msgs: seq<Msg>): map<string, seq<string>>
    requires AllReadable(msgs)
  {
    map r | r in Roles(msgs) :: TextsOf(msgs, r)
  }

  /** Roles in the order a dict sees them as it is filled message by
      message: a role is appended the first time it occurs. */
  function KeyOrder(msgs: seq<Msg>): seq<string> {
    if msgs == [] then []
    else
      var before := KeyOrder(msgs[..|msgs| - 1]);
      var r := msgs[|msgs| - 1].role;
      if r in before then before else before + [r]
  }

  /** The whole response envelope. */
  function Response(msgs: seq<Msg>): Dict
    requires AllReadable(msgs)
  {
    Dict(KeyOrder(msgs), Group(msgs))
  }

  /** The position of the first message with role `role`; |msgs| if none. */
  function FirstIndex(msgs: seq<Msg>, role: string): nat {
    if msgs == [] then 0
    else if msgs[0].role == role then 0
    else 1 + FirstIndex(msgs[1..], role)
  }

  predicate Distinct(s: seq<string>) {
    forall i, j :: 0 <= i < j < |s| ==> s[i] != s[j]
  }

  /** The number of entries of a dict, summed over its keys. */
  function Size(keys: seq<string>, lists: map<string, seq<string>>): nat
    requires forall k :: k in keys ==> k in lists
  {
    if keys == [] then 0
    else Size(keys[..|keys| - 1], lists) + |lists[keys[|keys| - 1]]|
  }

  // ---------------------------------------------------------------------
  // Basic facts about prefixes and concatenation

  lemma AllReadableSplit(a: seq<Msg>, b: seq<Msg>)
    ensures AllReadable(a + b) <==> AllReadable(a) && AllReadable(b)
  {
    if AllReadable(a) && AllReadable(b) {
      forall i | 0 <= i < |a + b| ensures Readable((a + b)[i]) {
        if i >= |a| { assert (a + b)[i] == b[i - |a|]; }
      }
    }
    if AllReadable(a + b) {
      forall i | 0 <= i < |a| ensures Readable(a[i]) {
        assert (a + b)[i] == a[i];
      }
      forall i | 0 <= i < |b| ensures Readable(b[i]) {
        assert (a + b)[|a| + i] == b[i];
      }
    }
  }

  lemma {:induction false} RolesAppend(a: seq<Msg>, m: Msg)
    ensures Roles(a + [m]) == Roles(a) + {m.role}
  {
    if a == [] {
      assert a + [m] == [m];
    } else {
      assert (a + [m])[0] == a[0];
      assert (a + [m])[1..] == a[1..] + [m];
      RolesAppend(a[1..], m);
    }
  }

  /** Filtering distributes over concatenation. */
  lemma {:induction false} TextsOfAppend(a: seq<Msg>, b: seq<Msg>, role: string)
    requires AllReadable(a) && AllReadable(b)
    ensures AllReadable(a + b)
    ensures TextsOf(a + b, role) == TextsOf(a, role) + TextsOf(b, role)
  {
    AllReadableSplit(a, b);
    if a == [] {
      assert a + b == b;
    } else {
      assert (a + b)[0] == a[0];
      assert (a + b)[1..] == a[1..] + b;
      AllReadableSplit([a[0]], a[1..]);
      assert [a[0]] + a[1..] == a;
      TextsOfAppend(a[1..], b, role);
    }
  }

  /** A role that does not occur contributes no text. */
  lemma {:induction false} TextsOfAbsent(msgs: seq<Msg>, role: string)
    requires AllReadable(msgs)
    requires role !in Roles(msgs)
    ensures TextsOf(msgs, role) == []
  {
    if msgs != [] {
      TextsOfAbsent(msgs[1..], role);
    }
  }

  // ---------------------------------------------------------------------
  // The grouping, one message at a time

  /** Appending message `m` extends only the list of `m.role` by the text of
      `m` (creating that list if the role is new); every other role keeps
      its list, and no other key appears. */
  lemma GroupAppend(p: seq<Msg>, m: Msg)
    requires AllReadable(p) && Readable(m)
    ensures AllReadable(p + [m])
    ensures Group(p + [m]).Keys == Group(p).Keys + {m.role}
    ensures Group(p + [m])[m.role]
         == (if m.role in Group(p) then Group(p)[m.role] else []) + [TextOf(m)]
    ensures forall r :: r in Group(p) && r != m.role ==> Group(p + [m])[r] == Group(p)[r]
  {
    AllReadableSplit(p, [m]);
    RolesAppend(p, m);
    forall r | r in Roles(p + [m])
      ensures TextsOf(p + [m], r) == TextsOf(p, r) + (if r == m.role then [TextOf(m)] else [])
    {
      TextsOfAppend(p, [m], r);
      assert TextsOf([m], r) == (if r == m.role then [TextOf(m)] else []) + TextsOf([], r);
    }
    if m.role !in Roles(p) {
      TextsOfAbsent(p, m.role);
    }
  }

  // ---------------------------------------------------------------------
  // Properties of the grouping

  /** The keys are exactly the roles that occur in the messages. */
  lemma {:induction false} GroupKeys(msgs: seq<Msg>, role: string)
    requires AllReadable(msgs)
    ensures role in Group(msgs) <==> exists i :: 0 <= i < |msgs| && msgs[i].role == role
  {
    if msgs != [] {
      AllReadableSplit([msgs[0]], msgs[1..]);
      assert [msgs[0]] + msgs[1..] == msgs;
      GroupKeys(msgs[1..], role);
      if role in Group(msgs[1..]) {
        var i :| 0 <= i < |msgs[1..]| && msgs[1..][i].role == role;
        assert msgs[i + 1].role == role;
      }
      if exists i :: 0 <= i < |msgs| && msgs[i].role == role {
        var i :| 0 <= i < |msgs| && msgs[i].role == role;
        if i > 0 { assert msgs[1..][i - 1].role == role; }
      }
    }
  }

  /** The empty thread gives the empty envelope. */
  lemma ResponseEmpty()
    ensures Response([]) == Dict([], map[])
  {
    assert Roles([]) == {};
  }

  /** Message `i` lands in its role's list at the position given by the
      number of earlier messages with that role: within a role the texts
      keep their chronological order. */
  lemma {:induction false} GroupPosition(msgs: seq<Msg>, i: nat)
    requires AllReadable(msgs)
    requires i < |msgs|
    ensures AllReadable(msgs[..i])
    ensures msgs[i].role in Group(msgs)
    ensures |TextsOf(msgs[..i], msgs[i].role)| < |Group(msgs)[msgs[i].role]|
    ensures Group(msgs)[msgs[i].role][|TextsOf(msgs[..i], msgs[i].role)|] == TextOf(msgs[i])
  {
    var r := msgs[i].role;
    var a, b := msgs[..i], msgs[i..];
    assert msgs == a + b;
    AllReadableSplit(a, b);
    TextsOfAppend(a, b, r);
    assert b[0] == msgs[i];
    assert b == [b[0]] + b[1..];
    AllReadableSplit([b[0]], b[1..]);
    TextsOfAppend([b[0]], b[1..], r);
    assert TextsOf([b[0]], r) == [TextOf(msgs[i])] + TextsOf([], r);
    RolesAppend(a, msgs[i]);
    RolesConcat(a + [msgs[i]], b[1..]);
    assert a + [msgs[i]] + b[1..] == msgs;
  }

  lemma {:induction false} RolesConcat(a: seq<Msg>, b: seq<Msg>)
    ensures Roles(a + b) == Roles(a) + Roles(b)
  {
    if a == [] {
      assert a + b == b;
    } else {
      assert (a + b)[0] == a[0];
      assert (a + b)[1..] == a[1..] + b;
      RolesConcat(a[1..], b);
    }
  }

  lemma {:induction false} TextsOfPresent(msgs: seq<Msg>, role: string)
    requires AllReadable(msgs)
    requires role in Roles(msgs)
    ensures |TextsOf(msgs, role)| > 0
  {
    if msgs[0].role != role {
      TextsOfPresent(msgs[1..], role);
    }
  }

  /** Every list in the envelope is non-empty. */
  lemma GroupNonEmpty(msgs: seq<Msg>)
    requires AllReadable(msgs)
    ensures forall r :: r in Group(msgs) ==> |Group(msgs)[r]| > 0
  {
    forall r | r in Group(msgs) ensures |Group(msgs)[r]| > 0 {
      TextsOfPresent(msgs, r);
    }
  }

  // ---------------------------------------------------------------------
  // The key order

  lemma {:induction false} FirstIndexAppend(a: seq<Msg>, b: seq<Msg>, role: string)
    ensures FirstIndex(a + b, role)
         == if role in Roles(a) then FirstIndex(a, role) else |a| + FirstIndex(b, role)
  {
    if a == [] {
      assert a + b == b;
      assert Roles(a) == {};
    } else {
      assert (a + b)[0] == a[0];
      assert (a + b)[1..] == a[1..] + b;
      FirstIndexAppend(a[1..], b, role);
    }
  }

  /** A role that occurs first occurs inside the sequence. */
  lemma {:induction false} FirstIndexBound(msgs: seq<Msg>, role: string)
    requires role in Roles(msgs)
    ensures FirstIndex(msgs, role) < |msgs|
    ensures msgs[FirstIndex(msgs, role)].role == role
  {
    if msgs[0].role != role {
      FirstIndexBound(msgs[1..], role);
    }
  }

  /** The dict's keys are the occurring roles, each once, ordered by where
      each role first occurs. */
  lemma {:induction false} KeyOrderSpec(msgs: seq<Msg>)
    ensures Distinct(KeyOrder(msgs))
    ensures forall r :: r in KeyOrder(msgs) <==> r in Roles(msgs)
    ensures forall i, j :: 0 <= i < j < |KeyOrder(msgs)| ==>
              FirstIndex(msgs, KeyOrder(msgs)[i]) < FirstIndex(msgs, KeyOrder(msgs)[j])
  {
    if msgs != [] {
      var p, m := msgs[..|msgs| - 1], msgs[|msgs| - 1];
      assert msgs == p + [m];
      KeyOrderSpec(p);
      RolesAppend(p, m);
      var k := KeyOrder(p);
      forall r | r in k ensures FirstIndex(msgs, r) == FirstIndex(p, r) < |p| {
        FirstIndexAppend(p, [m], r);
        FirstIndexBound(p, r);
      }
      if m.role !in k {
        FirstIndexAppend(p, [m], m.role);
        assert KeyOrder(msgs) == k + [m.role];
      }
    }
  }

  lemma KeyOrderKeys(msgs: seq<Msg>)
    requires AllReadable(msgs)
    ensures forall r :: r in KeyOrder(msgs) <==> r in Group(msgs)
  {
    KeyOrderSpec(msgs);
  }

  // ---------------------------------------------------------------------
  // Every message is used exactly once

  lemma {:induction false} SizeFrame(keys: seq<string>, l1: map<string, seq<string>>, l2: map<string, seq<string>>)
    requires forall k :: k in keys ==> k in l1 && k in l2 && |l1[k]| == |l2[k]|
    ensures Size(keys, l1) == Size(keys, l2)
  {
    if keys != [] {
      SizeFrame(keys[..|keys| - 1], l1, l2);
    }
  }

  lemma {:induction false} SizeBump(keys: seq<string>, lists: map<string, seq<string>>, key: string, t: string)
    requires Distinct(keys)
    requires forall k :: k in keys ==> k in lists
    requires key in keys
    ensures Size(keys, lists[key := lists[key] + [t]]) == Size(keys, lists) + 1
  {
    var p, last := keys[..|keys| - 1], keys[|keys| - 1];
    var lists' := lists[key := lists[key] + [t]];
    if last == key {
      forall k | k in p ensures k != key {
        var j :| 0 <= j < |p| && p[j] == k;
        assert keys[j] == k;
      }
      SizeFrame(p, lists, lists');
    } else {
      assert key in p by {
        var j :| 0 <= j < |keys| && keys[j] == key;
        assert j < |p|;
        assert p[j] == key;
      }
      SizeBump(p, lists, key, t);
    }
  }

  /** The envelope after one more message: the role is added to the keys
      the first time it is seen, and its list grows by the message's text. */
  lemma ResponseSnoc(p: seq<Msg>, m: Msg)
    requires AllReadable(p) && Readable(m)
    ensures AllReadable(p + [m])
    ensures forall k :: k in KeyOrder(p) <==> k in Group(p)
    ensures KeyOrder(p + [m]) == if m.role in Group(p) then KeyOrder(p) else KeyOrder(p) + [m.role]
    ensures Group(p + [m])
         == Group(p)[m.role := (if m.role in Group(p) then Group(p)[m.role] else []) + [TextOf(m)]]
  {
    assert (p + [m])[..|p + [m]| - 1] == p;
    KeyOrderKeys(p);
    GroupAppend(p, m);
  }

  lemma SizeStep(p: seq<Msg>, m: Msg)
    requires AllReadable(p) && Readable(m)
    requires forall k :: k in KeyOrder(p) ==> k in Group(p)
    ensures AllReadable(p + [m])
    ensures forall k :: k in KeyOrder(p + [m]) ==> k in Group(p + [m])
    ensures Size(KeyOrder(p + [m]), Group(p + [m])) == Size(KeyOrder(p), Group(p)) + 1
  {
    var msgs := p + [m];
    assert msgs[..|msgs| - 1] == p;
    KeyOrderKeys(p);
    KeyOrderKeys(msgs);
    KeyOrderSpec(p);
    ResponseSnoc(p, m);
    var k, g := KeyOrder(p), Group(p);
    if m.role in k {
      SizeBump(k, g, m.role, TextOf(m));
    } else {
      assert KeyOrder(msgs) == k + [m.role];
      assert (k + [m.role])[..|k|] == k;
      SizeFrame(k, g, Group(msgs));
    }
  }

  /** The list lengths sum to the number of messages. */
  lemma {:induction false} ResponseSize(msgs: seq<Msg>)
    requires AllReadable(msgs)
    ensures forall k :: k in KeyOrder(msgs) ==> k in Group(msgs)
    ensures Size(KeyOrder(msgs), Group(msgs)) == |msgs|
  {
    if msgs == [] {
      ResponseEmpty();
    } else {
      var p, m := msgs[..|msgs| - 1], msgs[|msgs| - 1];
      assert msgs == p + [m];
      AllReadableSplit(p, [m]);
      ResponseSize(p);
      SizeStep(p, m);
    }
  }
}
