/** The member array of an object: appended to, removed from, and erased from in place. */
module Members {
  import opened Bytes
  import opened Json
  import opened Equality
  import Permutation

  /** `RemoveMember`: the last member takes the place of the one removed. */
  function Removed(ms: seq<Member>, i: nat): (r: seq<Member>)
    requires i < |ms|
    ensures |r| == |ms| - 1
  {
    ms[i := ms[|ms| - 1]][..|ms| - 1]
  }

  /** `EraseMember` of a range: the members behind it move up. */
  function Erased(ms: seq<Member>, first: nat, last: nat): (r: seq<Member>)
    requires first <= last <= |ms|
    ensures |r| == |ms| - (last - first)
  {
    ms[..first] + ms[last..]
  }

  lemma ErasedAt(ms: seq<Member>, first: nat, last: nat, kept: seq<Member>)
    requires first <= last <= |ms| && |kept| == |ms| - (last - first)
    requires forall j :: 0 <= j < first ==> kept[j] == ms[j]
    requires forall j :: first <= j < |kept| ==> kept[j] == ms[j + (last - first)]
    ensures kept == Erased(ms, first, last)
  {
  }

  const DEFAULT_CAPACITY: nat := 16

  class ObjectData {
    var members: array<Member>
    var size: nat

    ghost predicate Valid()
      reads this
    {
      size <= members.Length
    }

    function Contents(): (ms: seq<Member>)
      requires Valid()
      reads this, members
      ensures |ms| == size
    {
      members[..size]
    }

    constructor ()
      ensures Valid() && Contents() == [] && fresh(members)
    {
      members := new Member[0];
      size := 0;
    }

    method MemberReserve(newCapacity: nat)
      requires Valid()
      modifies this
      ensures Valid() && Contents() == old(Contents()) && size == old(size)
      ensures members.Length == if newCapacity > old(members.Length) then newCapacity else old(members.Length)
      ensures members == old(members) || fresh(members)
    {
      if newCapacity > members.Length {
        var blank := Member([], NullValue);
        var more := new Member[newCapacity](_ => blank);
        for k := 0 to size
          invariant size == old(size) && members == old(members) && more[..k] == members[..k]
        {
          more[k] := members[k];
        }
        members := more;
      }
    }

    method AddMember(name: Text, value: Value)
      requires Valid()
      modifies this, members
      ensures Valid() && Contents() == old(Contents()) + [Member(name, value)]
      ensures members == old(members) || fresh(members)
    {
      if size >= members.Length {
        MemberReserve(if members.Length == 0 then DEFAULT_CAPACITY else members.Length + (members.Length + 1) / 2);
      }
      members[size] := Member(name, value);
      size := size + 1;
    }

    /** The index of the first member of that name, or the size. */
    method Find(name: Text) returns (r: nat)
      requires Valid()
      ensures r == FindMember(Contents(), name)
    {
      r := FindMemberLoop(members[..size], name);
    }

    method RemoveMember(i: nat)
      requires Valid() && i < size
      modifies this`size, members
      ensures Valid() && Contents() == Removed(old(Contents()), i)
    {
      if size > 1 && i != size - 1 {
        members[i] := members[size - 1];
      }
      size := size - 1;
    }

    method EraseMember(first: nat, last: nat)
      requires Valid() && first <= last <= size
      modifies this`size, members
      ensures Valid() && Contents() == Erased(old(Contents()), first, last)
    {
      ghost var was := Contents();
      for k := last to size
        invariant size == old(size)
        invariant forall j :: 0 <= j < size && (j < first || k <= j) ==> members[j] == was[j]
        invariant forall j :: first <= j < first + (k - last) ==> members[j] == was[j + (last - first)]
      {
        members[first + (k - last)] := members[k];
      }
      size := size - (last - first);
      ErasedAt(was, first, last, Contents());
    }

    /** `RemoveMember` by name. */
    method RemoveNamed(name: Text) returns (found: bool)
      requires Valid()
      modifies this`size, members
      ensures Valid()
      ensures found <==> FindMember(old(Contents()), name) < |old(Contents())|
      ensures Contents() ==
        if found then Removed(old(Contents()), FindMember(old(Contents()), name)) else old(Contents())
    {
      var i := Find(name);
      found := i < size;
      if found {
        RemoveMember(i);
      }
    }

    /** `EraseMember` by name. */
    method EraseNamed(name: Text) returns (found: bool)
      requires Valid()
      modifies this`size, members
      ensures Valid()
      ensures found <==> FindMember(old(Contents()), name) < |old(Contents())|
      ensures Contents() ==
        if found then Erased(old(Contents()), FindMember(old(Contents()), name), FindMember(old(Contents()), name) + 1)
        else old(Contents())
    {
      var i := Find(name);
      found := i < size;
      if found {
        EraseMember(i, i + 1);
      }
    }
  }

  // ---- what the operations mean for the table of members ----

  /** Among distinct names every member shows in the table. */
  lemma DenoteAt(ms: seq<Member>, k: nat)
    requires k < |ms| && IntegralMembers(ms) && DistinctNames(ms)
    ensures Integral(ms[k].value)
    ensures ms[k].name in DenoteMembers(ms) && DenoteMembers(ms)[ms[k].name] == Denote(ms[k].value)
  {
    hide Denote, Integral, DenoteMembers, FindMember;
    FindDistinct(ms, k);
    DenoteFound(ms, ms[k].name);
  }

  lemma {:induction false} IntegralSplit(ms: seq<Member>)
    ensures IntegralMembers(ms) <==> forall k :: 0 <= k < |ms| ==> Integral(ms[k].value)
  {
    hide Integral;
    if ms != [] {
      IntegralSplit(ms[1..]);
      assert forall k :: 0 < k < |ms| ==> ms[k] == ms[1..][k - 1];
    }
  }

  lemma {:induction false} NamesSplit(ms: seq<Member>)
    ensures DistinctNames(ms) <==> forall j, k :: 0 <= j < k < |ms| ==> ms[j].name != ms[k].name
  {
    if ms != [] {
      var rest := ms[1..];
      NamesSplit(rest);
      assert forall k :: 0 < k < |ms| ==> ms[k] == rest[k - 1];
      if FindMember(rest, ms[0].name) < |rest| {
        assert ms[FindMember(rest, ms[0].name) + 1].name == ms[0].name;
      }
      if forall j, k :: 0 <= j < k < |ms| ==> ms[j].name != ms[k].name {
        forall j, k | 0 <= j < k < |rest|
          ensures rest[j].name != rest[k].name
        {
          assert ms[j + 1].name != ms[k + 1].name;
        }
      }
    }
  }

  /** The member at `k` of the shorter list is a member of the longer one, and not the one removed. */
  lemma RemovedAt(ms: seq<Member>, i: nat, k: nat)
    requires i < |ms| && k < |ms| - 1
    ensures Removed(ms, i)[k] == ms[if k == i then |ms| - 1 else k]
  {
  }

  lemma RemovedKeeps(ms: seq<Member>, i: nat)
    requires i < |ms| && IntegralMembers(ms) && DistinctNames(ms)
    ensures IntegralMembers(Removed(ms, i)) && DistinctNames(Removed(ms, i))
    ensures forall k :: 0 <= k < |ms| - 1 ==> Removed(ms, i)[k].name != ms[i].name
  {
    hide Denote, Integral, IntegralMembers, DistinctNames, Removed;
    var r := Removed(ms, i);
    IntegralSplit(ms);
    NamesSplit(ms);
    forall k | 0 <= k < |r|
      ensures r[k] == ms[if k == i then |ms| - 1 else k]
    {
      RemovedAt(ms, i, k);
    }
    IntegralSplit(r);
    NamesSplit(r);
  }

  lemma RemovedOnlyOld(ms: seq<Member>, i: nat, name: Text)
    requires i < |ms| && IntegralMembers(ms) && DistinctNames(ms)
    requires IntegralMembers(Removed(ms, i)) && name in DenoteMembers(Removed(ms, i))
    ensures name != ms[i].name && name in DenoteMembers(ms)
    ensures DenoteMembers(Removed(ms, i))[name] == DenoteMembers(ms)[name]
  {
    hide *;
    RemovedKeeps(ms, i);
    var k := NamedAt(Removed(ms, i), name);
    RemovedAt(ms, i, k);
    DenoteAt(Removed(ms, i), k);
    DenoteAt(ms, if k == i then |ms| - 1 else k);
  }

  lemma RemovedKeepsOthers(ms: seq<Member>, i: nat, name: Text)
    requires i < |ms| && IntegralMembers(ms) && DistinctNames(ms)
    requires name in DenoteMembers(ms) && name != ms[i].name
    ensures IntegralMembers(Removed(ms, i)) && name in DenoteMembers(Removed(ms, i))
  {
    hide *;
    RemovedKeeps(ms, i);
    var k := NamedAt(ms, name);
    var j := if k == |ms| - 1 then i else k;
    RemovedAt(ms, i, j);
    DenoteAt(Removed(ms, i), j);
  }

  /** Removing by swapping the last member in takes exactly one name out of the table. */
  lemma RemoveTakesOut(ms: seq<Member>, i: nat)
    requires i < |ms| && IntegralMembers(ms) && DistinctNames(ms)
    ensures IntegralMembers(Removed(ms, i)) && DistinctNames(Removed(ms, i))
    ensures DenoteMembers(Removed(ms, i)) == DenoteMembers(ms) - {ms[i].name}
  {
    hide *;
    RemovedKeeps(ms, i);
    forall name | name in DenoteMembers(Removed(ms, i))
      ensures name != ms[i].name && name in DenoteMembers(ms)
      ensures DenoteMembers(Removed(ms, i))[name] == DenoteMembers(ms)[name]
    {
      RemovedOnlyOld(ms, i, name);
    }
    forall name | name in DenoteMembers(ms) && name != ms[i].name
      ensures name in DenoteMembers(Removed(ms, i))
    {
      RemovedKeepsOthers(ms, i, name);
    }
  }

  /** A name in the table is the name of a member. */
  lemma NamedAt(ms: seq<Member>, name: Text) returns (k: nat)
    requires IntegralMembers(ms) && name in DenoteMembers(ms)
    ensures k < |ms| && ms[k].name == name
  {
    hide Denote;
    k := FindMember(ms, name);
  }

  /** `RemoveMember` and `EraseMember` differ in order only: the operator finds their results equal. */
  lemma RemoveEqualsErase(ms: seq<Member>, i: nat)
    requires i < |ms| && IntegralMembers(ms) && DistinctMembers(ms)
    ensures Integral(ObjectValue(Removed(ms, i))) && Integral(ObjectValue(Erased(ms, i, i + 1)))
    ensures Equal(ObjectValue(Removed(ms, i)), ObjectValue(Erased(ms, i, i + 1)))
  {
    hide Denote, Integral, DenoteMembers, IntegralMembers, DistinctNames, FindMember, Removed, Equal, Distinct,
        DistinctMembers;
    DistinctSplit(ms);
    RemoveTakesOut(ms, i);
    Permutation.WithoutKeeps(ms, i);
    Permutation.WithoutDistinct(ms, i);
    Permutation.WithoutMeans(ms, i);
    assert Permutation.Without(ms, i) == Erased(ms, i, i + 1);
    var r := Removed(ms, i);
    forall k | 0 <= k < |r|
      ensures Distinct(r[k].value)
    {
      RemovedAt(ms, i, k);
    }
    DistinctSplit(r);
    var a, b := ObjectValue(r), ObjectValue(Erased(ms, i, i + 1));
    Object(r);
    Object(Erased(ms, i, i + 1));
    EqualIff(a, b);
  }

  lemma Object(ms: seq<Member>)
    requires IntegralMembers(ms) && DistinctMembers(ms)
    ensures Integral(ObjectValue(ms)) && Distinct(ObjectValue(ms)) &&
        Denote(ObjectValue(ms)) == Table(DenoteMembers(ms))
  {
    hide IntegralMembers, DistinctMembers, DenoteMembers;
  }

  /** A member added under a name not yet there shows in the table; under a name already there it is
      shadowed. */
  lemma {:induction false} AddShows(ms: seq<Member>, m: Member)
    requires IntegralMembers(ms) && Integral(m.value)
    ensures IntegralMembers(ms + [m])
    ensures DenoteMembers(ms + [m])
         == if FindMember(ms, m.name) < |ms| then DenoteMembers(ms) else DenoteMembers(ms)[m.name := Denote(m.value)]
  {
    hide Denote, Integral;
    if ms == [] {
      assert ms + [m] == [m] && [m][1..] == [];
      assert DenoteMembers([m]) == map[][m.name := Denote(m.value)];
    } else {
      assert (ms + [m])[0] == ms[0] && (ms + [m])[1..] == ms[1..] + [m];
      AddShows(ms[1..], m);
    }
  }
}
