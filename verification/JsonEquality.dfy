/** When two values compare as equal. */
module JsonEquality {
  import opened Bson
  import opened Json

  /** Every number in its signed form: comparing casts an unsigned number to a signed one. */
  function Cast(j: Json): Json {
    match j
    case Unsigned(n) => Integer(AsSigned(n))
    case Array(items) => Array(seq(|items|, k requires 0 <= k < |items| => Cast(items[k])))
    case Object(members) =>
      Object(seq(|members|, k requires 0 <= k < |members| => Member(members[k].key, Cast(members[k].value))))
    case _ => j
  }

  lemma AsSignedInjective(m: nat, n: nat)
    requires m < 0x1_0000_0000_0000_0000 && n < 0x1_0000_0000_0000_0000
    ensures AsSigned(m) == AsSigned(n) <==> m == n
  {
  }

  lemma CastItems(s: seq<Json>, t: seq<Json>)
    ensures Cast(Array(s)) == Cast(Array(t)) <==> |s| == |t| && forall k :: 0 <= k < |s| ==> Cast(s[k]) == Cast(t[k])
  {
    var a, b := Cast(Array(s)).items, Cast(Array(t)).items;
    assert |a| == |s| && forall k :: 0 <= k < |s| ==> a[k] == Cast(s[k]);
    assert |b| == |t| && forall k :: 0 <= k < |t| ==> b[k] == Cast(t[k]);
    if |s| == |t| && forall k :: 0 <= k < |s| ==> a[k] == b[k] { assert a == b; }
  }

  lemma CastMembers(s: seq<Member>, t: seq<Member>)
    ensures Cast(Object(s)) == Cast(Object(t)) <==>
      |s| == |t| && forall k :: 0 <= k < |s| ==> s[k].key == t[k].key && Cast(s[k].value) == Cast(t[k].value)
  {
    var a, b := Cast(Object(s)).members, Cast(Object(t)).members;
    assert |a| == |s| && forall k :: 0 <= k < |s| ==> a[k] == Member(s[k].key, Cast(s[k].value));
    assert |b| == |t| && forall k :: 0 <= k < |t| ==> b[k] == Member(t[k].key, Cast(t[k].value));
    if |s| == |t| && forall k :: 0 <= k < |s| ==> a[k] == b[k] { assert a == b; }
  }

  /** Values without floats are equal exactly if they are the same once every number is signed, so equality is an
      equivalence. */
  lemma {:induction false} EqualExactly(a: Json, b: Json)
    requires FloatFree(a) && FloatFree(b)
    ensures Equal(a, b) <==> Cast(a) == Cast(b)
  {
    if a.Array? && b.Array? {
      CastItems(a.items, b.items);
      if |a.items| == |b.items| {
        forall k | 0 <= k < |a.items|
          ensures Equal(a.items[k], b.items[k]) <==> Cast(a.items[k]) == Cast(b.items[k])
        {
          EqualExactly(a.items[k], b.items[k]);
        }
      }
    } else if a.Object? && b.Object? {
      CastMembers(a.members, b.members);
      if |a.members| == |b.members| {
        forall k | 0 <= k < |a.members| ensures
            Equal(a.members[k].value, b.members[k].value) <==> Cast(a.members[k].value) == Cast(b.members[k].value)
        {
          EqualExactly(a.members[k].value, b.members[k].value);
        }
      }
    } else if a.Unsigned? && b.Unsigned? {
      AsSignedInjective(a.n, b.n);
    } else {
    }
  }

  /** Unsigned numbers that a signed one can hold. */
  predicate Small(j: Json) {
    match j
    case Unsigned(n) => n < 0x8000_0000_0000_0000
    case Array(items) => forall k :: 0 <= k < |items| ==> Small(items[k])
    case Object(members) => forall k :: 0 <= k < |members| ==> Small(members[k].value)
    case _ => true
  }

  /** Small values are equal exactly if they stand for the same numbers, strings, arrays and objects. */
  lemma {:induction false} EqualNormal(a: Json, b: Json)
    requires FloatFree(a) && FloatFree(b) && Small(a) && Small(b)
    ensures Equal(a, b) <==> Normal(a) == Normal(b)
  {
    if a.Array? && b.Array? {
      NormalSame(a.items, b.items);
      if |a.items| == |b.items| {
        forall k | 0 <= k < |a.items|
          ensures Equal(a.items[k], b.items[k]) <==> Normal(a.items[k]) == Normal(b.items[k])
        {
          EqualNormal(a.items[k], b.items[k]);
        }
      }
    } else if a.Object? && b.Object? {
      NormalSameMembers(a.members, b.members);
      if |a.members| == |b.members| {
        forall k | 0 <= k < |a.members| ensures
            Equal(a.members[k].value, b.members[k].value) <==> Normal(a.members[k].value) == Normal(b.members[k].value)
        {
          EqualNormal(a.members[k].value, b.members[k].value);
        }
      }
    } else {
    }
  }

  lemma NormalSame(s: seq<Json>, t: seq<Json>)
    ensures Normal(Array(s)) == Normal(Array(t)) <==>
      |s| == |t| && forall k :: 0 <= k < |s| ==> Normal(s[k]) == Normal(t[k])
  {
    var a, b := Normal(Array(s)).items, Normal(Array(t)).items;
    assert |a| == |s| && forall k :: 0 <= k < |s| ==> a[k] == Normal(s[k]);
    assert |b| == |t| && forall k :: 0 <= k < |t| ==> b[k] == Normal(t[k]);
    if |s| == |t| && forall k :: 0 <= k < |s| ==> a[k] == b[k] { assert a == b; }
  }

  lemma NormalSameMembers(s: seq<Member>, t: seq<Member>)
    ensures Normal(Object(s)) == Normal(Object(t)) <==>
      |s| == |t| && forall k :: 0 <= k < |s| ==> s[k].key == t[k].key && Normal(s[k].value) == Normal(t[k].value)
  {
    var a, b := Normal(Object(s)).members, Normal(Object(t)).members;
    assert |a| == |s| && forall k :: 0 <= k < |s| ==> a[k] == Member(s[k].key, Normal(s[k].value));
    assert |b| == |t| && forall k :: 0 <= k < |t| ==> b[k] == Member(t[k].key, Normal(t[k].value));
    if |s| == |t| && forall k :: 0 <= k < |s| ==> a[k] == b[k] { assert a == b; }
  }

  /** Above the limit the cast shows: an unsigned number equals the signed one that is 2^64 less, and no other. */
  lemma EqualNumbers(n: nat, i: int)
    requires n < 0x1_0000_0000_0000_0000
    ensures Equal(Unsigned(n), Integer(i)) <==> Equal(Integer(i), Unsigned(n))
    ensures Equal(Unsigned(n), Integer(i)) <==>
      i == if n < 0x8000_0000_0000_0000 then n else n - 0x1_0000_0000_0000_0000
  {
  }

  /** Null, truth values, numbers, strings, arrays and objects. */
  function Kind(j: Json): nat {
    match j
    case Null => 0
    case Boolean(_) => 1
    case Integer(_) => 2
    case Unsigned(_) => 2
    case Float(_) => 2
    case String(_) => 3
    case Array(_) => 4
    case Object(_) => 5
  }

  lemma KindsDiffer(a: Json, b: Json)
    requires Kind(a) != Kind(b)
    ensures !Equal(a, b)
  {
  }
}
