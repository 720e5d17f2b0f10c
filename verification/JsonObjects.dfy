/** The members of an object: assigning to a key, and the order and contents that many assignments leave. */
module JsonObjects {
  import opened Bson
  import opened Json

  // ---- The order of keys is total.

  lemma {:induction false} PrecedesStrict(a: bytes, b: bytes)
    requires Precedes(a, b)
    ensures a != b && !Precedes(b, a)
  {
    if a == [] || b == [] {
    } else if a[0] == b[0] {
      PrecedesStrict(a[1..], b[1..]);
    } else {
    }
  }

  /** `a` and `b` agree up to `k`, where `a` ends or has the lower byte. */
  predicate LowerAt(a: bytes, b: bytes, k: nat) {
    k <= |a| && k < |b| && a[..k] == b[..k] && (k == |a| || a[k] < b[k])
  }

  /** Keys are in the order of their bytes, and a prefix comes first. */
  lemma {:induction false} PrecedesExactly(a: bytes, b: bytes)
    ensures Precedes(a, b) <==> exists k: nat :: LowerAt(a, b, k)
  {
    if a == [] || b == [] || a[0] != b[0] {
      assert b != [] && (a == [] || a[0] < b[0]) ==> LowerAt(a, b, 0);
      assert a != [] && b != [] ==> forall k: nat :: k > 0 && LowerAt(a, b, k) ==> a[..k][0] == b[..k][0];
    } else {
      PrecedesExactly(a[1..], b[1..]);
      forall k: nat | LowerAt(a[1..], b[1..], k) ensures LowerAt(a, b, k + 1) {
        assert a[..k + 1] == [a[0]] + a[1..][..k] && b[..k + 1] == [b[0]] + b[1..][..k];
      }
      forall k: nat | LowerAt(a, b, k) ensures k > 0 && LowerAt(a[1..], b[1..], k - 1) {
        assert k > 0;
        assert a[1..][..k - 1] == a[..k][1..] && b[1..][..k - 1] == b[..k][1..];
      }
    }
  }

  lemma {:induction false} PrecedesTotal(a: bytes, b: bytes)
    ensures a == b || Precedes(a, b) || Precedes(b, a)
  {
    if a == [] || b == [] || a[0] != b[0] {
    } else {
      PrecedesTotal(a[1..], b[1..]);
      assert a == [a[0]] + a[1..] && b == [b[0]] + b[1..];
    }
  }

  lemma {:induction false} PrecedesTransitive(a: bytes, b: bytes, c: bytes)
    requires Precedes(a, b) && Precedes(b, c)
    ensures Precedes(a, c)
  {
    if a == [] || a[0] != b[0] || b[0] != c[0] {
    } else {
      PrecedesTransitive(a[1..], b[1..], c[1..]);
    }
  }

  // ---- One assignment.

  /** Assigning puts the value at its key and leaves all other members as they are. */
  lemma {:induction false} PutHolds(members: seq<Member>, key: bytes, value: Json)
    requires Ascending(members)
    ensures forall m :: m in Put(members, key, value) <==> m == Member(key, value) || (m in members && m.key != key)
  {
    if members == [] {
    } else {
      var first, rest := members[0], members[1..];
      assert members == [first] + rest;
      if first.key == key {
        DistinctKeys(first, rest);
      } else if Precedes(key, first.key) {
        FirstAscends(Member(key, value), members);
      } else {
        PutHolds(rest, key, value);
      }
    }
  }

  /** Assigning keeps the members in the order of their keys. */
  lemma {:induction false} PutAscends(members: seq<Member>, key: bytes, value: Json)
    requires Ascending(members)
    ensures Ascending(Put(members, key, value))
  {
    if members == [] {
    } else {
      var first, rest := members[0], members[1..];
      if first.key == key {
        assert forall k :: 1 <= k < |members| ==> members[k] == Put(members, key, value)[k];
      } else if Precedes(key, first.key) {
        FirstAscends(Member(key, value), members);
      } else {
        PutAscends(rest, key, value);
        PutHolds(rest, key, value);
        PrecedesTotal(key, first.key);
        AboveAscends(first, Put(rest, key, value));
      }
    }
  }

  lemma AboveAscends(m: Member, members: seq<Member>)
    requires Ascending(members) && forall n :: n in members ==> Precedes(m.key, n.key)
    ensures Ascending([m] + members)
  {
  }

  lemma DistinctKeys(first: Member, rest: seq<Member>)
    requires Ascending([first] + rest)
    ensures forall m :: m in rest ==> m.key != first.key
  {
    forall m | m in rest ensures m.key != first.key {
      var k :| 0 <= k < |rest| && rest[k] == m;
      assert ([first] + rest)[0] == first && ([first] + rest)[k + 1] == m;
      PrecedesStrict(first.key, m.key);
    }
  }

  lemma FirstAscends(m: Member, members: seq<Member>)
    requires Ascending(members) && members != [] && Precedes(m.key, members[0].key)
    ensures Ascending([m] + members)
    ensures forall n :: n in members ==> n.key != m.key
  {
    forall k | 0 <= k < |members| ensures Precedes(m.key, members[k].key) && members[k].key != m.key {
      if k > 0 { PrecedesTransitive(m.key, members[0].key, members[k].key); }
      PrecedesStrict(m.key, members[k].key);
    }
  }

  // ---- Many assignments.

  /** Assigns one pair after the other. */
  function PutAll(members: seq<Member>, pairs: seq<Member>): seq<Member>
    decreases |pairs|
  {
    if pairs == [] then members else PutAll(Put(members, pairs[0].key, pairs[0].value), pairs[1..])
  }

  /** A key behind all others goes to the end. */
  lemma {:induction false} PutLast(members: seq<Member>, key: bytes, value: Json)
    requires forall k :: 0 <= k < |members| ==> Precedes(members[k].key, key)
    ensures Put(members, key, value) == members + [Member(key, value)]
  {
    if members == [] {
    } else {
      PrecedesStrict(members[0].key, key);
      PutLast(members[1..], key, value);
    }
  }

  /** Pairs in order are taken over as they are. */
  lemma {:induction false} PutAllInOrder(members: seq<Member>, pairs: seq<Member>)
    requires Ascending(members + pairs)
    ensures PutAll(members, pairs) == members + pairs
    decreases |pairs|
  {
    if pairs == [] {
    } else {
      var all, first := members + pairs, pairs[0];
      assert all[|members|] == first && forall k :: 0 <= k < |members| ==> all[k] == members[k];
      PutLast(members, first.key, first.value);
      assert all == members + [first] + pairs[1..];
      PutAllInOrder(members + [first], pairs[1..]);
    }
  }

  /** `m` is among the pairs, and its key is not given again behind it. */
  ghost predicate GivenLast(m: Member, pairs: seq<Member>) {
    exists i :: 0 <= i < |pairs| && pairs[i] == m && forall k :: i < k < |pairs| ==> pairs[k].key != m.key
  }

  predicate GivesKey(pairs: seq<Member>, key: bytes) { exists k :: 0 <= k < |pairs| && pairs[k].key == key }

  lemma GivenLastFirst(m: Member, pairs: seq<Member>)
    requires pairs != []
    ensures GivenLast(m, pairs) <==> GivenLast(m, pairs[1..]) || (m == pairs[0] && !GivesKey(pairs[1..], m.key))
  {
    var rest := pairs[1..];
    if GivenLast(m, rest) {
      var i :| 0 <= i < |rest| && rest[i] == m && forall k :: i < k < |rest| ==> rest[k].key != m.key;
      assert pairs[i + 1] == m && forall k :: i + 1 < k < |pairs| ==> pairs[k] == rest[k - 1];
    }
    if m == pairs[0] && !GivesKey(rest, m.key) {
      assert forall k :: 0 < k < |pairs| ==> pairs[k] == rest[k - 1];
    }
    if GivenLast(m, pairs) {
      var i :| 0 <= i < |pairs| && pairs[i] == m && forall k :: i < k < |pairs| ==> pairs[k].key != m.key;
      assert forall k :: 0 <= k < |rest| ==> rest[k] == pairs[k + 1];
      if i > 0 { assert rest[i - 1] == m; }
    }
  }

  lemma GivesKeyFirst(pairs: seq<Member>, key: bytes)
    requires pairs != []
    ensures GivesKey(pairs, key) <==> pairs[0].key == key || GivesKey(pairs[1..], key)
  {
    var rest := pairs[1..];
    assert forall k :: 0 <= k < |rest| ==> rest[k] == pairs[k + 1];
    if GivesKey(pairs, key) && pairs[0].key != key {
      var k :| 0 <= k < |pairs| && pairs[k].key == key;
      assert rest[k - 1].key == key;
    }
  }

  /** The members are in the order of their keys; each key has the value given to it last, or the one it had. */
  lemma {:induction false} LastWins(members: seq<Member>, pairs: seq<Member>)
    requires Ascending(members)
    ensures Ascending(PutAll(members, pairs))
    ensures forall m ::
      m in PutAll(members, pairs) <==> GivenLast(m, pairs) || (m in members && !GivesKey(pairs, m.key))
    decreases |pairs|
  {
    if pairs == [] {
    } else {
      var first, rest := pairs[0], pairs[1..];
      var more := Put(members, first.key, first.value);
      PutAscends(members, first.key, first.value);
      PutHolds(members, first.key, first.value);
      LastWins(more, rest);
      forall m: Member
        ensures m in PutAll(members, pairs) <==> GivenLast(m, pairs) || (m in members && !GivesKey(pairs, m.key))
      {
        GivenLastFirst(m, pairs);
        GivesKeyFirst(pairs, m.key);
      }
    }
  }

  /** Members in order are determined by which they are, so the law above leaves no choice. */
  lemma {:induction false} AscendingUnique(a: seq<Member>, b: seq<Member>)
    requires Ascending(a) && Ascending(b) && forall m :: m in a <==> m in b
    ensures a == b
    decreases |a|
  {
    assert (|a| > 0 ==> a[0] in b) && (|b| > 0 ==> b[0] in a);
    if a == [] || b == [] {
    } else {
      LeastFirst(a, b[0]);
      LeastFirst(b, a[0]);
      assert a == [a[0]] + a[1..] && b == [b[0]] + b[1..];
      if a[0] != b[0] {
        PrecedesStrict(a[0].key, b[0].key);
      }
      DistinctKeys(a[0], a[1..]);
      DistinctKeys(b[0], b[1..]);
      assert forall m :: m in a[1..] <==> m in a && m != a[0];
      assert forall m :: m in b[1..] <==> m in b && m != b[0];
      AscendingUnique(a[1..], b[1..]);
    }
  }

  lemma LeastFirst(members: seq<Member>, m: Member)
    requires Ascending(members) && m in members
    ensures m == members[0] || Precedes(members[0].key, m.key)
  {
  }
}
