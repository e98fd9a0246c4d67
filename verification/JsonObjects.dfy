/**
  How the mathematical value of an object changes when its member list is edited.
 */
module JsonObjects {
  import opened Basics
  import opened JsonTree

  lemma UpdateThenRemove<K, V>(m: map<K, V>, k: K, v: V)
    requires k !in m
    ensures m[k := v] - {k} == m
  {
  }

  lemma UniqueTail(ms: Members)
    requires UniqueKeys(ms, true) && ms != []
    ensures UniqueKeys(ms[1..], true) && ms[0].key !in KeySet(ms[1..])
  {
    assert forall a, b :: 0 <= a < b < |ms| - 1 ==> ms[1..][a] == ms[a + 1] && ms[1..][b] == ms[b + 1];
  }

  lemma UniqueRemoval(ms: Members, i: nat)
    requires i < |ms| && UniqueKeys(ms, true)
    ensures UniqueKeys(RemoveAt(ms, i), true) && ms[i].key !in KeySet(RemoveAt(ms, i))
  {
    var r := RemoveAt(ms, i);
    assert forall j :: 0 <= j < |r| ==> r[j] == ms[if j < i then j else j + 1];
  }

  lemma RemoveOther<K, V>(m: map<K, V>, k: K, v: V, j: K)
    requires j != k
    ensures m[k := v] - {j} == (m - {j})[k := v]
  {
  }

  lemma ValueOfHead(m: Member<Json>, rest: Members)
    ensures AbsMembers([m] + rest) == AbsMembers(rest)[m.key := Abs(m.value)]
  {
    assert ([m] + rest)[1..] == rest;
  }

  lemma {:induction false} ValueOfRemoval(ms: Members, i: nat)
    requires i < |ms| && UniqueKeys(ms, true)
    ensures AbsMembers(RemoveAt(ms, i)) == AbsMembers(ms) - {ms[i].key}
  {
    hide AbsMembers;
    UniqueTail(ms);
    AbsMembersKeys(ms[1..]);
    assert ms == [ms[0]] + ms[1..];
    ValueOfHead(ms[0], ms[1..]);
    var v := Abs(ms[0].value);
    if i == 0 {
      assert RemoveAt(ms, 0) == ms[1..];
      UpdateThenRemove(AbsMembers(ms[1..]), ms[0].key, v);
    } else {
      ValueOfRemoval(ms[1..], i - 1);
      assert RemoveAt(ms, i) == [ms[0]] + RemoveAt(ms[1..], i - 1);
      ValueOfHead(ms[0], RemoveAt(ms[1..], i - 1));
      RemoveOther(AbsMembers(ms[1..]), ms[0].key, v, ms[i].key);
    }
  }

  lemma {:induction false} ValueOfAppend(ms: Members, m: Member<Json>)
    requires m.key !in KeySet(ms)
    ensures AbsMembers(ms + [m]) == AbsMembers(ms)[m.key := Abs(m.value)]
  {
    if ms == [] {
      assert ms + [m] == [m];
    } else {
      assert (ms + [m])[1..] == ms[1..] + [m];
      forall i | 0 <= i < |ms| - 1 ensures ms[1..][i].key != m.key {
        assert ms[i + 1].key in KeySet(ms);
      }
      assert ms[0].key in KeySet(ms);
      ValueOfAppend(ms[1..], m);
    }
  }

  lemma {:induction false} ValueOfUpdate(ms: Members, i: nat, x: Json)
    requires i < |ms| && UniqueKeys(ms, true)
    ensures AbsMembers(ms[i := Member(ms[i].key, x)]) == AbsMembers(ms)[ms[i].key := Abs(x)]
  {
    var r := ms[i := Member(ms[i].key, x)];
    if i == 0 {
      assert r[1..] == ms[1..];
    } else {
      UniqueTail(ms);
      ValueOfUpdate(ms[1..], i - 1, x);
      assert r[1..] == ms[1..][i - 1 := Member(ms[i].key, x)];
      assert ms[0].key != ms[i].key;
    }
  }

  lemma AppendUnique(ms: Members, m: Member<Json>)
    requires UniqueKeys(ms, true) && m.key !in KeySet(ms)
    ensures UniqueKeys(ms + [m], true)
  {
    assert forall j :: 0 <= j < |ms| ==> ms[j].key in KeySet(ms);
  }
}
