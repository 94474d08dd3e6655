/**
 Id-keyed sequences: the bubble list and the point-effect list are both
 searched with `firstIndex(where: { $0.id == id })` and shrunk with
 `remove(at:)`. The helpers here are generic in the key projection.
 */
module Registry {
  import opened Options

  /** The ids of the elements of `s`, in order. */
  function Keys<T>(s: seq<T>, key: T -> nat): (ks: seq<nat>)
    ensures |ks| == |s|
    ensures forall i :: 0 <= i < |s| ==> ks[i] == key(s[i])
  {
    seq(|s|, i requires 0 <= i < |s| => key(s[i]))
  }

  /** No id occurs twice. */
  predicate Distinct(ks: seq<nat>) {
    forall i, j :: 0 <= i < j < |ks| ==> ks[i] != ks[j]
  }

  /** Swift's `firstIndex(where: { $0.id == id })` on the id sequence. */
  function FirstIndex(ks: seq<nat>, id: nat): (r: Option<nat>)
    ensures r.None? <==> id !in ks
    ensures r.Some? ==> r.value < |ks| && ks[r.value] == id
    ensures r.Some? ==> forall j :: 0 <= j < r.value ==> ks[j] != id
  {
    if |ks| == 0 then None
    else if ks[0] == id then Some(0)
    else
      match FirstIndex(ks[1..], id)
      case None => None
      case Some(k) => Some(k + 1)
  }

  /** Swift's `remove(at: i)`. */
  function RemoveAt<T>(s: seq<T>, i: nat): (r: seq<T>)
    requires i < |s|
    ensures |r| == |s| - 1
    ensures forall x :: x in r ==> x in s
    ensures forall j :: 0 <= j < i ==> r[j] == s[j]
    ensures forall j :: i <= j < |r| ==> r[j] == s[j + 1]
  {
    s[..i] + s[i + 1..]
  }

  /** Reference definition: `s` with every element whose id is `id` dropped. */
  function Without<T>(s: seq<T>, key: T -> nat, id: nat): (r: seq<T>)
    ensures |r| <= |s|
    ensures forall x :: x in r ==> x in s
  {
    if |s| == 0 then []
    else if key(s[0]) == id then Without(s[1..], key, id)
    else [s[0]] + Without(s[1..], key, id)
  }

  /** Removing by id changes nothing when the id is absent. */
  lemma {:induction false} WithoutAbsent<T>(s: seq<T>, key: T -> nat, id: nat)
    requires id !in Keys(s, key)
    ensures Without(s, key, id) == s
  {
    if |s| > 0 {
      assert Keys(s[1..], key) == Keys(s, key)[1..];
      WithoutAbsent(s[1..], key, id);
    }
  }

  /**
   With distinct ids, `remove(at: firstIndex(id))` deletes exactly the
   element with that id and keeps every other element in order.
   */
  lemma {:induction false} RemoveFirstIsWithout<T>(s: seq<T>, key: T -> nat, id: nat)
    requires id in Keys(s, key)
    decreases |s|, 1
    ensures FirstIndex(Keys(s, key), id).Some?
    ensures Distinct(Keys(s, key)) ==>
              RemoveAt(s, FirstIndex(Keys(s, key), id).value) == Without(s, key, id)
  {
    if Distinct(Keys(s, key)) {
      var ks := Keys(s, key);
      assert Keys(s[1..], key) == ks[1..];
      if key(s[0]) == id {
        RemoveHead(s, key, id);
      } else {
        RemoveLater(s, key, id);
      }
    }
  }

  lemma RemoveHead<T>(s: seq<T>, key: T -> nat, id: nat)
    requires Distinct(Keys(s, key)) && |s| > 0 && key(s[0]) == id
    ensures FirstIndex(Keys(s, key), id) == Some(0)
    ensures RemoveAt(s, 0) == Without(s, key, id)
  {
    var ks := Keys(s, key);
    assert Keys(s[1..], key) == ks[1..];
    HeadNotInTail(ks);
    WithoutAbsent(s[1..], key, id);
    assert RemoveAt(s, 0) == s[1..];
  }

  lemma {:induction false} RemoveLater<T>(s: seq<T>, key: T -> nat, id: nat)
    requires Distinct(Keys(s, key)) && |s| > 0 && key(s[0]) != id && id in Keys(s, key)
    ensures FirstIndex(Keys(s, key), id).Some?
    ensures RemoveAt(s, FirstIndex(Keys(s, key), id).value) == Without(s, key, id)
    decreases |s|, 0
  {
    var ks := Keys(s, key);
    var tail := Keys(s[1..], key);
    assert tail == ks[1..];
    assert Distinct(tail);
    assert id in tail by {
      var k :| 0 <= k < |ks| && ks[k] == id;
      assert tail[k - 1] == id;
    }
    RemoveFirstIsWithout(s[1..], key, id);
    var k := FirstIndex(tail, id).value;
    assert FirstIndex(ks, id) == Some(k + 1);
    RemoveAtCons(s, k);
    assert Without(s, key, id) == [s[0]] + Without(s[1..], key, id);
  }

  lemma HeadNotInTail(ks: seq<nat>)
    requires Distinct(ks) && |ks| > 0
    ensures ks[0] !in ks[1..]
  {
    forall j | 0 <= j < |ks| - 1 ensures ks[1..][j] != ks[0] {
      assert ks[0] != ks[j + 1];
    }
  }

  lemma RemoveAtCons<T>(s: seq<T>, k: nat)
    requires k + 1 < |s|
    ensures RemoveAt(s, k + 1) == [s[0]] + RemoveAt(s[1..], k)
  {
    assert s[..k + 1] == [s[0]] + s[1..][..k];
    assert s[k + 2..] == s[1..][k + 1..];
  }

  /** Dropping an id removes it from the key sequence and keeps the others distinct. */
  lemma {:induction false} WithoutKeys<T>(s: seq<T>, key: T -> nat, id: nat)
    ensures id !in Keys(Without(s, key, id), key)
    ensures forall k :: k in Keys(Without(s, key, id), key) <==> k in Keys(s, key) && k != id
    ensures Distinct(Keys(s, key)) ==> Distinct(Keys(Without(s, key, id), key))
  {
    if |s| > 0 {
      assert Keys(s[1..], key) == Keys(s, key)[1..];
      WithoutKeys(s[1..], key, id);
      var rest := Without(s[1..], key, id);
      if key(s[0]) != id {
        assert Keys([s[0]] + rest, key) == [key(s[0])] + Keys(rest, key);
        if Distinct(Keys(s, key)) {
          HeadNotInTail(Keys(s, key));
        }
      }
    }
  }

  /** Appending an element with a fresh id keeps the ids distinct. */
  lemma AppendFresh<T>(s: seq<T>, x: T, key: T -> nat)
    requires Distinct(Keys(s, key)) && key(x) !in Keys(s, key)
    ensures Keys(s + [x], key) == Keys(s, key) + [key(x)]
    ensures Distinct(Keys(s + [x], key))
  {
    assert Keys(s + [x], key) == Keys(s, key) + [key(x)];
  }

  /** Every id of a sub-collection is an id of the whole. */
  lemma KeysOfSubset<T>(r: seq<T>, s: seq<T>, key: T -> nat)
    requires forall x :: x in r ==> x in s
    ensures forall k :: k in Keys(r, key) ==> k in Keys(s, key)
  {
    forall k | k in Keys(r, key) ensures k in Keys(s, key) {
      var j :| 0 <= j < |r| && Keys(r, key)[j] == k;
      assert r[j] in s;
      var m :| 0 <= m < |s| && s[m] == r[j];
      assert Keys(s, key)[m] == k;
    }
  }
}
