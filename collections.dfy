/**
 * The two Doctrine `ArrayCollection` operations the Article entity relies on,
 * over sequences: `contains` is a strict (identity) membership test, `add`
 * appends, and `removeElement` drops the first occurrence only.
 */
module Collections {

  /** No element occurs twice. */
  ghost predicate NoDup<T>(s: seq<T>) {
    forall i, j :: 0 <= i < j < |s| ==> s[i] != s[j]
  }

  lemma NoDupSnoc<T>(s: seq<T>, x: T)
    requires NoDup(s) && x !in s
    ensures NoDup(s + [x])
  {
  }

  /** `if (!$c->contains($x)) { $c->add($x); }` */
  function AddIfAbsent<T(==)>(s: seq<T>, x: T): (r: seq<T>)
    ensures x in r
    ensures forall y :: y in r ==> y in s || y == x
    ensures forall y :: y in s ==> y in r
    ensures x in s ==> r == s
    ensures x !in s ==> r == s + [x]
    ensures NoDup(s) ==> NoDup(r)
  {
    if x in s then s else s + [x]
  }

  /** Adding each element of `ts` in turn, as a `foreach` over `AddIfAbsent` does. */
  function AddAll<T(==)>(s: seq<T>, ts: seq<T>): seq<T>
  {
    if ts == [] then s else AddIfAbsent(AddAll(s, ts[..|ts| - 1]), ts[|ts| - 1])
  }

  /** One more step of the `foreach`. */
  lemma AddAllStep<T>(s: seq<T>, ts: seq<T>, t: T)
    ensures AddAll(s, ts + [t]) == AddIfAbsent(AddAll(s, ts), t)
  {
    assert (ts + [t])[..|ts|] == ts;
  }

  /** After adding, exactly the old elements and the added ones are present. */
  lemma {:induction false} AddAllMembers<T>(s: seq<T>, ts: seq<T>)
    ensures forall y :: y in AddAll(s, ts) ==> y in s || y in ts
    ensures forall y :: y in s || y in ts ==> y in AddAll(s, ts)
  {
    if ts != [] {
      var init := ts[..|ts| - 1];
      AddAllMembers(s, init);
      assert ts == init + [ts[|ts| - 1]];
    }
  }

  /** Adding never reorders or drops what was there: the old sequence is a prefix. */
  lemma {:induction false} AddAllExtends<T>(s: seq<T>, ts: seq<T>)
    ensures |s| <= |AddAll(s, ts)| && AddAll(s, ts)[..|s|] == s
  {
    if ts != [] {
      AddAllExtends(s, ts[..|ts| - 1]);
    }
  }

  /** Adding keeps a duplicate-free collection duplicate-free. */
  lemma {:induction false} AddAllNoDup<T>(s: seq<T>, ts: seq<T>)
    requires NoDup(s)
    ensures NoDup(AddAll(s, ts))
  {
    if ts != [] {
      AddAllNoDup(s, ts[..|ts| - 1]);
    }
  }

  /** Adding elements that are all present already changes nothing. */
  lemma {:induction false} AddAllPresent<T>(s: seq<T>, ts: seq<T>)
    requires forall t :: t in ts ==> t in s
    ensures AddAll(s, ts) == s
  {
    if ts != [] {
      var init := ts[..|ts| - 1];
      assert forall t :: t in init ==> t in ts;
      AddAllPresent(s, init);
    }
  }

  /** Adding the same elements twice is the same as adding them once. */
  lemma AddAllIdempotent<T>(s: seq<T>, ts: seq<T>)
    ensures AddAll(AddAll(s, ts), ts) == AddAll(s, ts)
  {
    AddAllMembers(s, ts);
    AddAllPresent(AddAll(s, ts), ts);
  }

  /** `removeElement`: the first occurrence of `x`, if any, is dropped; the rest keep their order. */
  function RemoveElement<T(==)>(s: seq<T>, x: T): (r: seq<T>)
    ensures x !in s ==> r == s
    ensures x in s ==> |r| == |s| - 1
  {
    if s == [] then []
    else if s[0] == x then s[1..]
    else [s[0]] + RemoveElement(s[1..], x)
  }

  /** Removing one element leaves every other element in place and adds nothing. */
  lemma {:induction false} RemoveElementOthers<T>(s: seq<T>, x: T)
    ensures forall y :: y in RemoveElement(s, x) ==> y in s
    ensures forall y :: y in s && y != x ==> y in RemoveElement(s, x)
  {
    if s != [] {
      assert s == [s[0]] + s[1..];
      if s[0] != x {
        RemoveElementOthers(s[1..], x);
      }
    }
  }

  /** In a duplicate-free collection, removal makes the element absent and keeps the collection duplicate-free. */
  lemma {:induction false} RemoveElementNoDup<T>(s: seq<T>, x: T)
    requires NoDup(s)
    ensures x !in RemoveElement(s, x)
    ensures NoDup(RemoveElement(s, x))
  {
    if s != [] {
      var tail := s[1..];
      assert NoDup(tail) by {
        forall i, j | 0 <= i < j < |tail| ensures tail[i] != tail[j] {
          assert tail[i] == s[i + 1] && tail[j] == s[j + 1];
        }
      }
      assert s[0] !in tail by {
        forall j | 0 <= j < |tail| ensures tail[j] != s[0] {
          assert tail[j] == s[j + 1];
        }
      }
      if s[0] != x {
        RemoveElementNoDup(tail, x);
        RemoveElementOthers(tail, x);
        var r := RemoveElement(tail, x);
        assert RemoveElement(s, x) == [s[0]] + r;
        assert s[0] !in r;
      }
    }
  }

  /** Without the duplicate-free invariant a removed element may remain. */
  lemma RemoveKeepsLaterCopy()
    ensures RemoveElement([7, 7], 7) == [7]
  {
  }
}
