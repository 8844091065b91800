/** Sequence operations that the in-memory stores of both versions are built from: the
    filtering loops, the first-match scans by id, replacing the first match, and Java's
    `List.remove(Object)`. Each is a function here; the stores' methods are proved against them. */
module Seqs {
  import opened Common

  /** No element occurs twice. */
  ghost predicate NoDuplicates<T>(s: seq<T>)
  {
    forall i, j | 0 <= i < j < |s| :: s[i] != s[j]
  }

  /** No two elements share a key. */
  ghost predicate KeysDistinct<T>(s: seq<T>, key: T -> int)
  {
    forall i, j | 0 <= i < j < |s| :: key(s[i]) != key(s[j])
  }

  // ---------------------------------------------------------------------------------------
  // Filtering: a new list holding the elements that pass a test, in their stored order.

  /** The elements of `s` that satisfy `p`, in the order they have in `s`. Defined from the
      back, as the accumulator loops build it. */
  function Select<T>(s: seq<T>, p: T -> bool): (r: seq<T>)
    ensures |r| <= |s|
    decreases |s|
  {
    if s == [] then []
    else Select(s[..|s| - 1], p) + (if p(s[|s| - 1]) then [s[|s| - 1]] else [])
  }

  /** Exactly the elements of `s` that satisfy `p` are selected. */
  lemma {:induction false} SelectMember<T>(s: seq<T>, p: T -> bool, x: T)
    ensures x in Select(s, p) <==> x in s && p(x)
    decreases |s|
  {
    if s != [] {
      SelectMember(s[..|s| - 1], p, x);
      assert s == s[..|s| - 1] + [s[|s| - 1]];
    }
  }

  /** Selecting from a concatenation selects from each part, keeping the parts in order:
      the selected elements keep their relative order. */
  lemma {:induction false} SelectConcat<T>(a: seq<T>, b: seq<T>, p: T -> bool)
    ensures Select(a + b, p) == Select(a, p) + Select(b, p)
    decreases |b|
  {
    if b == [] {
      assert a + b == a;
    } else {
      var c := a + b;
      assert c[..|c| - 1] == a + b[..|b| - 1];
      assert c[|c| - 1] == b[|b| - 1];
      SelectConcat(a, b[..|b| - 1], p);
    }
  }

  /** Selecting keeps every element when all of them pass. */
  lemma {:induction false} SelectAll<T>(s: seq<T>, p: T -> bool)
    requires forall i | 0 <= i < |s| :: p(s[i])
    ensures Select(s, p) == s
    decreases |s|
  {
    if s != [] {
      SelectAll(s[..|s| - 1], p);
      assert s == s[..|s| - 1] + [s[|s| - 1]];
    }
  }

  /** A list without repeated elements stays so after selecting. */
  lemma {:induction false} SelectNoDuplicates<T>(s: seq<T>, p: T -> bool)
    requires NoDuplicates(s)
    ensures NoDuplicates(Select(s, p))
    decreases |s|
  {
    if s != [] {
      var init, last := s[..|s| - 1], s[|s| - 1];
      SelectNoDuplicates(init, p);
      if p(last) {
        SelectMember(init, p, last);
        assert last !in init by {
          assert s == init + [last];
        }
        AppendNoDuplicates(Select(init, p), last);
      }
    }
  }

  /** Appending an element that is not yet present keeps a list free of duplicates. */
  lemma AppendNoDuplicates<T>(s: seq<T>, x: T)
    requires NoDuplicates(s) && x !in s
    ensures NoDuplicates(s + [x])
  {
    var t := s + [x];
    forall i, j | 0 <= i < j < |t| ensures t[i] != t[j] {
      if j == |s| {
        assert t[i] == s[i];
      }
    }
  }

  // ---------------------------------------------------------------------------------------
  // First match by id: the `findById` scans, and the updates that act on the entry they find.

  /** The position of the first element whose key is `id`, if any. */
  function FirstIndex<T>(s: seq<T>, key: T -> int, id: int): (r: Option<nat>)
    ensures r.Some? ==> r.value < |s| && key(s[r.value]) == id
    ensures r.Some? ==> forall j | 0 <= j < r.value :: key(s[j]) != id
    ensures r.None? <==> forall j | 0 <= j < |s| :: key(s[j]) != id
    decreases |s|
  {
    if s == [] then None
    else if key(s[0]) == id then Some(0)
    else match FirstIndex(s[1..], key, id)
      case None => None
      case Some(k) => Some(k + 1)
  }

  /** The first element whose key is `id`, if any (`findById`, with null as `None`). */
  function Find<T>(s: seq<T>, key: T -> int, id: int): (r: Option<T>)
    ensures r.Some? ==> r.value in s && key(r.value) == id
    ensures r.None? <==> forall x | x in s :: key(x) != id
  {
    match FirstIndex(s, key, id)
    case None => None
    case Some(k) => Some(s[k])
  }

  /** `s` with its first element keyed `id` changed by `f` (`findById` then a setter on the
      entity found); `s` itself when no element has that key. */
  function UpdateFirst<T>(s: seq<T>, key: T -> int, id: int, f: T -> T): (r: seq<T>)
    ensures |r| == |s|
  {
    match FirstIndex(s, key, id)
    case None => s
    case Some(k) => s[k := f(s[k])]
  }

  /** `s` with its first element keyed like `x` replaced by `x` (`update*`: `findById`,
      `indexOf`, `set`); `s` itself when no element has that key. */
  function ReplaceFirst<T>(s: seq<T>, key: T -> int, x: T): (r: seq<T>)
    ensures |r| == |s|
  {
    match FirstIndex(s, key, key(x))
    case None => s
    case Some(k) => s[k := x]
  }

  /** Java's `List.indexOf`: the position of the first occurrence of `x`, or -1. */
  method IndexOf<T(==)>(s: seq<T>, x: T) returns (i: int)
    ensures -1 <= i < |s|
    ensures i == -1 <==> x !in s
    ensures 0 <= i ==> s[i] == x && x !in s[..i]
  {
    i := 0;
    while i < |s|
      invariant 0 <= i <= |s|
      invariant x !in s[..i]
    {
      if s[i] == x {
        return;
      }
      assert s[..i + 1] == s[..i] + [s[i]];
      i := i + 1;
    }
    assert s[..i] == s;
    i := -1;
  }

  /** The first occurrence of the element found by key is the first match itself: an
      `indexOf` of what `findById` returned lands on the first element keyed `id`. */
  lemma FirstOccurrenceOfFound<T>(s: seq<T>, key: T -> int, id: int, j: nat)
    requires j < |s| && Find(s, key, id) == Some(s[j]) && s[j] !in s[..j]
    ensures FirstIndex(s, key, id) == Some(j)
  {
  }

  /** Two lists with the same keys position by position have the same first match. */
  lemma FirstIndexSameKeys<T>(s: seq<T>, t: seq<T>, key: T -> int, id: int)
    requires |s| == |t|
    requires forall i | 0 <= i < |s| :: key(s[i]) == key(t[i])
    ensures FirstIndex(s, key, id) == FirstIndex(t, key, id)
  {
  }

  /** Updating the first match with a function that keeps keys changes no key, and keeps
      every other element. */
  lemma UpdateFirstKeys<T>(s: seq<T>, key: T -> int, id: int, f: T -> T)
    requires forall x :: key(f(x)) == key(x)
    ensures var r := UpdateFirst(s, key, id, f);
      forall i | 0 <= i < |s| :: key(r[i]) == key(s[i])
  {
  }

  /** Updating twice with an idempotent, key-preserving function is updating once: the
      `deactivate`/`activate` operations are idempotent. */
  lemma UpdateFirstIdempotent<T>(s: seq<T>, key: T -> int, id: int, f: T -> T)
    requires forall x :: key(f(x)) == key(x)
    requires forall x :: f(f(x)) == f(x)
    ensures FirstIndex(UpdateFirst(s, key, id, f), key, id) == FirstIndex(s, key, id)
    ensures UpdateFirst(UpdateFirst(s, key, id, f), key, id, f) == UpdateFirst(s, key, id, f)
  {
    var r := UpdateFirst(s, key, id, f);
    UpdateFirstKeys(s, key, id, f);
    FirstIndexSameKeys(s, r, key, id);
  }

  /** When keys are distinct, the element at position `i` is the one found by its key. */
  lemma FindDistinct<T>(s: seq<T>, key: T -> int, i: nat)
    requires KeysDistinct(s, key) && i < |s|
    ensures FirstIndex(s, key, key(s[i])) == Some(i)
    ensures Find(s, key, key(s[i])) == Some(s[i])
  {
    assert forall j | 0 <= j < i :: key(s[j]) != key(s[i]);
  }

  /** Appending an element whose key is above every key present keeps keys distinct, and
      that key then finds the appended element. */
  lemma AppendFreshKey<T>(s: seq<T>, key: T -> int, x: T)
    requires KeysDistinct(s, key)
    requires forall i | 0 <= i < |s| :: key(s[i]) < key(x)
    ensures KeysDistinct(s + [x], key)
    ensures Find(s + [x], key, key(x)) == Some(x)
  {
    var t := s + [x];
    assert forall i | 0 <= i < |s| :: t[i] == s[i];
    FindDistinct(t, key, |s|);
  }

  /** When keys are distinct, after updating the entry keyed `id` with `f`, no element keyed
      `id` passes a test that `f`'s results all fail. */
  lemma UpdateFirstExcludes<T>(s: seq<T>, key: T -> int, id: int, f: T -> T, p: T -> bool)
    requires KeysDistinct(s, key)
    requires forall x :: key(f(x)) == key(x)
    requires forall x :: !p(f(x))
    ensures forall x | x in Select(UpdateFirst(s, key, id, f), p) :: key(x) != id
  {
    var r := UpdateFirst(s, key, id, f);
    forall x | x in Select(r, p) ensures key(x) != id {
      SelectMember(r, p, x);
      var i :| 0 <= i < |r| && r[i] == x;
    }
  }

  // ---------------------------------------------------------------------------------------
  // Java's `List.remove(Object)`: removes the first occurrence, if any.

  /** `s` without its first occurrence of `x`; `s` itself when `x` does not occur. */
  function RemoveFirst<T(==)>(s: seq<T>, x: T): (r: seq<T>)
    ensures x in s ==> |r| == |s| - 1
    ensures x !in s ==> r == s
    decreases |s|
  {
    if s == [] then []
    else if s[0] == x then s[1..]
    else [s[0]] + RemoveFirst(s[1..], x)
  }

  /** Removing cuts out exactly the first occurrence; the others keep their order. */
  lemma {:induction false} RemoveFirstSplit<T>(s: seq<T>, x: T, k: nat)
    requires k < |s| && s[k] == x && x !in s[..k]
    ensures RemoveFirst(s, x) == s[..k] + s[k + 1..]
    decreases |s|
  {
    if k > 0 {
      assert s[0] in s[..k];
      assert s[1..][..k - 1] == s[1..k];
      RemoveFirstSplit(s[1..], x, k - 1);
      assert [s[0]] + s[1..k] == s[..k];
    }
  }

  /** A list without duplicates loses none by dropping its head, and its head occurs only
      there. */
  lemma DropHeadNoDuplicates<T>(s: seq<T>)
    requires NoDuplicates(s) && s != []
    ensures s[0] !in s[1..] && NoDuplicates(s[1..])
  {
    var t := s[1..];
    assert forall i | 0 <= i < |t| :: t[i] == s[i + 1];
  }

  /** Putting an element that is not yet present in front keeps a list free of duplicates. */
  lemma PrependNoDuplicates<T>(x: T, s: seq<T>)
    requires NoDuplicates(s) && x !in s
    ensures NoDuplicates([x] + s)
  {
    var t := [x] + s;
    assert forall i | 0 < i < |t| :: t[i] == s[i - 1];
  }

  /** In a list without duplicates, removing `x` leaves every other element and no `x`. */
  lemma {:induction false} RemoveFirstMembers<T>(s: seq<T>, x: T)
    requires NoDuplicates(s)
    ensures NoDuplicates(RemoveFirst(s, x))
    ensures forall y :: y in RemoveFirst(s, x) <==> y in s && y != x
    decreases |s|
  {
    if s != [] {
      var t := s[1..];
      assert s == [s[0]] + t;
      DropHeadNoDuplicates(s);
      if s[0] != x {
        RemoveFirstMembers(t, x);
        PrependNoDuplicates(s[0], RemoveFirst(t, x));
      }
    }
  }

  /** Removing `x` from a list extended by some other element removes it from the list
      before the extension. */
  lemma {:induction false} RemoveFirstAppendedOther<T>(s: seq<T>, x: T, y: T)
    requires y != x
    ensures RemoveFirst(s + [y], x) == RemoveFirst(s, x) + [y]
    decreases |s|
  {
    if s != [] {
      assert (s + [y])[1..] == s[1..] + [y];
      RemoveFirstAppendedOther(s[1..], x, y);
    }
  }

  /** In a list without duplicates the last element does not occur before it, and the
      front has no duplicates either. */
  lemma LastNotInFront<T>(s: seq<T>)
    requires NoDuplicates(s) && s != []
    ensures s[|s| - 1] !in s[..|s| - 1] && NoDuplicates(s[..|s| - 1])
  {
    var front := s[..|s| - 1];
    assert forall i | 0 <= i < |front| :: front[i] == s[i];
  }

  /** Adding an absent `x` at the end and then removing it gives back the list. */
  lemma {:induction false} RemoveFirstAppended<T>(s: seq<T>, x: T)
    requires x !in s
    ensures RemoveFirst(s + [x], x) == s
    decreases |s|
  {
    if s != [] {
      assert (s + [x])[1..] == s[1..] + [x];
      RemoveFirstAppended(s[1..], x);
    }
  }
}
