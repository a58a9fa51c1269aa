/** Collecting entries under sorted keys, merging entries that share one. A sorted map is modelled by
    the list of its entries in ascending key order. */
module OrderedMap {
  import opened Wrappers

  /** A tuple of strings, compared field by field. */
  type Key = seq<string>

  predicate Less(a: string, b: string) {
    b != [] && (a == [] || a[0] < b[0] || (a[0] == b[0] && Less(a[1..], b[1..])))
  }

  predicate KeyLess(a: Key, b: Key) {
    b != [] && (a == [] || Less(a[0], b[0]) || (a[0] == b[0] && KeyLess(a[1..], b[1..])))
  }

  lemma {:induction false} LessIsOrder(a: string, b: string, c: string)
    ensures !Less(a, a)
    ensures Less(a, b) && Less(b, c) ==> Less(a, c)
    ensures a != b ==> Less(a, b) || Less(b, a)
  {
    if a != [] {
      LessIsOrder(a[1..], if b == [] then [] else b[1..], if c == [] then [] else c[1..]);
      if b != [] && a[0] == b[0] && a[1..] == b[1..] {
        assert a == [a[0]] + a[1..] && b == [b[0]] + b[1..];
      }
    }
  }

  lemma {:induction false} KeyLessIsOrder(a: Key, b: Key, c: Key)
    ensures !KeyLess(a, a)
    ensures KeyLess(a, b) && KeyLess(b, c) ==> KeyLess(a, c)
    ensures a != b ==> KeyLess(a, b) || KeyLess(b, a)
  {
    if a != [] {
      var bh, ch := if b == [] then "" else b[0], if c == [] then "" else c[0];
      LessIsOrder(a[0], bh, ch);
      KeyLessIsOrder(a[1..], if b == [] then [] else b[1..], if c == [] then [] else c[1..]);
      if b != [] && a[0] == b[0] && a[1..] == b[1..] {
        assert a == [a[0]] + a[1..] && b == [b[0]] + b[1..];
      }
    }
  }

  predicate Ascending<E>(entries: seq<E>, key: E -> Key) {
    forall i, j | 0 <= i < j < |entries| :: KeyLess(key(entries[i]), key(entries[j]))
  }

  /** The entry for `e`'s key becomes `merge` of what was there and `e`, or `e` itself. */
  function Upsert<E>(entries: seq<E>, e: E, key: E -> Key, merge: (E, E) -> E): seq<E> {
    if entries == [] then [e]
    else if key(e) == key(entries[0]) then [merge(entries[0], e)] + entries[1..]
    else if KeyLess(key(e), key(entries[0])) then [e] + entries
    else [entries[0]] + Upsert(entries[1..], e, key, merge)
  }

  function Collect<E>(es: seq<E>, key: E -> Key, merge: (E, E) -> E): seq<E> {
    if es == [] then [] else Upsert(Collect(es[..|es| - 1], key, merge), es[|es| - 1], key, merge)
  }

  // ----- the reference: each key's entries in input order, merged left to right

  function Group<E>(es: seq<E>, k: Key, key: E -> Key): seq<E> {
    if es == [] then []
    else Group(es[..|es| - 1], k, key) + if key(es[|es| - 1]) == k then [es[|es| - 1]] else []
  }

  function Merged<E>(group: seq<E>, merge: (E, E) -> E): E
    requires group != []
  {
    if |group| == 1 then group[0] else merge(Merged(group[..|group| - 1], merge), group[|group| - 1])
  }

  function Lookup<E>(entries: seq<E>, k: Key, key: E -> Key): Option<E> {
    if entries == [] then None else if key(entries[0]) == k then Some(entries[0]) else Lookup(entries[1..], k, key)
  }

  ghost predicate KeepsKey<E(!new)>(key: E -> Key, merge: (E, E) -> E) {
    forall a, b :: key(merge(a, b)) == key(a)
  }

  lemma AscendingCons<E>(first: E, rest: seq<E>, key: E -> Key)
    requires Ascending(rest, key) && (rest == [] || KeyLess(key(first), key(rest[0])))
    ensures Ascending([first] + rest, key)
  {
    var all := [first] + rest;
    forall i, j | 0 <= i < j < |all| ensures KeyLess(key(all[i]), key(all[j])) {
      if i == 0 && 1 < j {
        KeyLessIsOrder(key(first), key(rest[0]), key(rest[j - 1]));
      }
    }
  }

  /** The head of an updated list is either the old head's key or the new one. */
  lemma {:induction false} UpsertAscends<E(!new)>(entries: seq<E>, e: E, key: E -> Key, merge: (E, E) -> E)
    requires KeepsKey(key, merge) && Ascending(entries, key)
    ensures var after := Upsert(entries, e, key, merge);
            && Ascending(after, key) && after != []
            && (key(after[0]) == key(e) || (entries != [] && key(after[0]) == key(entries[0])))
  {
    if entries == [] {
    } else {
      var head, rest := entries[0], entries[1..];
      assert entries == [head] + rest;
      if key(e) == key(head) {
        AscendingCons(merge(head, e), rest, key);
      } else if KeyLess(key(e), key(head)) {
        AscendingCons(e, entries, key);
      } else {
        KeyLessIsOrder(key(head), key(e), key(e));
        UpsertAscends(rest, e, key, merge);
        AscendingCons(head, Upsert(rest, e, key, merge), key);
      }
    }
  }

  lemma {:induction false} LookupBelowHead<E>(entries: seq<E>, k: Key, key: E -> Key)
    requires Ascending(entries, key) && (entries == [] || KeyLess(k, key(entries[0])))
    ensures Lookup(entries, k, key).None?
  {
    if entries != [] {
      KeyLessIsOrder(k, key(entries[0]), if |entries| == 1 then k else key(entries[1]));
      LookupBelowHead(entries[1..], k, key);
    }
  }

  lemma {:induction false} LookupUpsert<E(!new)>(entries: seq<E>, e: E, key: E -> Key, merge: (E, E) -> E, k: Key)
    requires KeepsKey(key, merge) && Ascending(entries, key)
    ensures Lookup(Upsert(entries, e, key, merge), k, key)
            == if k != key(e) then Lookup(entries, k, key)
               else match Lookup(entries, k, key) case None => Some(e) case Some(existing) => Some(merge(existing, e))
  {
    if entries == [] {
    } else {
      var head, rest := entries[0], entries[1..];
      if key(e) == key(head) {
        assert ([merge(head, e)] + rest)[1..] == rest;
      } else if KeyLess(key(e), key(head)) {
        LookupBelowHead(entries, key(e), key);
        assert ([e] + entries)[1..] == entries;
      } else {
        LookupUpsert(rest, e, key, merge, k);
        assert ([head] + Upsert(rest, e, key, merge))[1..] == Upsert(rest, e, key, merge);
      }
    }
  }

  /** Collecting gives strictly ascending keys, and under each key the merge of that key's inputs in
      input order. */
  lemma {:induction false} CollectIsGroupwise<E(!new)>(es: seq<E>, key: E -> Key, merge: (E, E) -> E, k: Key)
    requires KeepsKey(key, merge)
    ensures Ascending(Collect(es, key, merge), key)
    ensures Lookup(Collect(es, key, merge), k, key)
            == if Group(es, k, key) == [] then None else Some(Merged(Group(es, k, key), merge))
  {
    if es != [] {
      var front, last := es[..|es| - 1], es[|es| - 1];
      CollectIsGroupwise(front, key, merge, k);
      UpsertAscends(Collect(front, key, merge), last, key, merge);
      LookupUpsert(Collect(front, key, merge), last, key, merge, k);
      MergedOneMore(Group(front, k, key), last, merge);
      assert Group(front, k, key) + [] == Group(front, k, key);
    }
  }

  lemma MergedOneMore<E>(group: seq<E>, e: E, merge: (E, E) -> E)
    ensures Merged(group + [e], merge) == if group == [] then e else merge(Merged(group, merge), e)
  {
    assert (group + [e])[..|group|] == group;
  }

  lemma {:induction false} UpsertAtEnd<E>(entries: seq<E>, e: E, key: E -> Key, merge: (E, E) -> E)
    requires Ascending(entries + [e], key)
    ensures Upsert(entries, e, key, merge) == entries + [e]
  {
    if entries != [] {
      var all := entries + [e];
      assert all[0] == entries[0] && all[|entries|] == e;
      KeyLessIsOrder(key(entries[0]), key(e), key(entries[0]));
      assert all[1..] == entries[1..] + [e];
      UpsertAtEnd(entries[1..], e, key, merge);
    }
  }

  /** Collecting what is already collected changes nothing. */
  lemma {:induction false} CollectSorted<E>(es: seq<E>, key: E -> Key, merge: (E, E) -> E)
    requires Ascending(es, key)
    ensures Collect(es, key, merge) == es
  {
    if es != [] {
      var front, last := es[..|es| - 1], es[|es| - 1];
      assert es == front + [last];
      CollectSorted(front, key, merge);
      UpsertAtEnd(front, last, key, merge);
    }
  }

  /** Two ascending lists with the same entry under every key are equal. */
  lemma {:induction false} SameLookupsSameList<E>(xs: seq<E>, ys: seq<E>, key: E -> Key)
    requires Ascending(xs, key) && Ascending(ys, key)
    requires forall k :: Lookup(xs, k, key) == Lookup(ys, k, key)
    ensures xs == ys
  {
    if xs != [] && ys != [] {
      HeadsAgree(xs, ys, key);
      forall k ensures Lookup(xs[1..], k, key) == Lookup(ys[1..], k, key) {
        TailLookup(xs, k, key);
        TailLookup(ys, k, key);
        assert Lookup(xs, k, key) == Lookup(ys, k, key);
      }
      SameLookupsSameList(xs[1..], ys[1..], key);
    } else {
      FindsHead(xs, key);
      FindsHead(ys, key);
    }
  }

  lemma FindsHead<E>(xs: seq<E>, key: E -> Key)
    ensures xs != [] ==> Lookup(xs, key(xs[0]), key) == Some(xs[0])
  {
  }

  lemma TailLookup<E>(xs: seq<E>, k: Key, key: E -> Key)
    requires Ascending(xs, key) && xs != []
    ensures Lookup(xs[1..], k, key) == if k == key(xs[0]) then None else Lookup(xs, k, key)
  {
    if k == key(xs[0]) {
      LookupBelowHead(xs[1..], k, key);
    }
  }

  lemma HeadsAgree<E>(xs: seq<E>, ys: seq<E>, key: E -> Key)
    requires Ascending(xs, key) && Ascending(ys, key) && xs != [] && ys != []
    requires forall k :: Lookup(xs, k, key) == Lookup(ys, k, key)
    ensures xs[0] == ys[0]
  {
    var kx, ky := key(xs[0]), key(ys[0]);
    assert Lookup(xs, kx, key) == Lookup(ys, kx, key);
    assert Lookup(xs, ky, key) == Lookup(ys, ky, key);
    KeyLessIsOrder(kx, ky, kx);
    if KeyLess(kx, ky) {
      LookupBelowHead(ys, kx, key);
    } else if KeyLess(ky, kx) {
      LookupBelowHead(xs, ky, key);
    }
  }

  // ----- the order is the dictionary's

  /** The strings agree up to position `i`, and there `a` ends or has the smaller character. */
  predicate SmallerFrom(a: string, b: string, i: nat) {
    i <= |a| && i < |b| && a[..i] == b[..i] && (i == |a| || a[i] < b[i])
  }

  lemma {:induction false} LessIsLexicographic(a: string, b: string)
    ensures Less(a, b) <==> exists i: nat :: SmallerFrom(a, b, i)
  {
    if a == [] || b == [] || a[0] != b[0] {
      assert b != [] && (a == [] || a[0] < b[0]) ==> SmallerFrom(a, b, 0);
      forall i: nat | SmallerFrom(a, b, i) ensures i == 0 {
        HeadsAgreeAt(a, b, i);
      }
    } else {
      hide SmallerFrom;
      LessIsLexicographic(a[1..], b[1..]);
      if i: nat :| SmallerFrom(a, b, i) {
        SmallerIsLater(a, b, i);
        SmallerInTail(a, b, i - 1);
        assert SmallerFrom(a[1..], b[1..], i - 1);
      }
      if i: nat :| SmallerFrom(a[1..], b[1..], i) {
        SmallerInTail(a, b, i);
        assert SmallerFrom(a, b, i + 1);
      }
    }
  }

  lemma HeadsAgreeAt(a: string, b: string, i: nat)
    requires SmallerFrom(a, b, i)
    ensures i == 0 || (a != [] && b != [] && a[0] == b[0])
  {
    if i != 0 {
      assert a[..i][0] == a[0] && b[..i][0] == b[0];
    }
  }

  lemma SmallerIsLater(a: string, b: string, i: nat)
    requires a != [] && b != [] && a[0] == b[0] && SmallerFrom(a, b, i)
    ensures i != 0
  {
  }

  lemma SmallerInTail(a: string, b: string, i: nat)
    requires a != [] && b != [] && a[0] == b[0]
    ensures SmallerFrom(a, b, i + 1) <==> SmallerFrom(a[1..], b[1..], i)
  {
    if i + 1 <= |a| && i + 1 < |b| {
      assert a[..i + 1] == [a[0]] + a[1..][..i] && b[..i + 1] == [b[0]] + b[1..][..i];
      assert a[1..][..i] == b[1..][..i] ==> a[..i + 1] == b[..i + 1];
      assert a[..i + 1] == b[..i + 1] ==> a[..i + 1][1..] == b[..i + 1][1..];
      assert a[..i + 1][1..] == a[1..][..i] && b[..i + 1][1..] == b[1..][..i];
    }
  }

  /** Tuples of the same width are ordered by the first field they differ in. */
  lemma {:induction false} KeyLessByFirstDifference(a: Key, b: Key)
    requires |a| == |b|
    ensures KeyLess(a, b) <==> exists i | 0 <= i < |a| :: Less(a[i], b[i]) && forall j | 0 <= j < i :: a[j] == b[j]
  {
    if a != [] {
      LessIsOrder(a[0], a[0], a[0]);
      KeyLessByFirstDifference(a[1..], b[1..]);
      if i :| 0 <= i < |a| && Less(a[i], b[i]) && forall j | 0 <= j < i :: a[j] == b[j] {
        if i != 0 {
          assert a[0] == b[0] && Less(a[1..][i - 1], b[1..][i - 1]);
          assert forall j | 0 <= j < i - 1 :: a[1..][j] == a[j + 1] && b[1..][j] == b[j + 1];
        }
      }
      if KeyLess(a, b) && !Less(a[0], b[0]) {
        var i :| 0 <= i < |a| - 1 && Less(a[1..][i], b[1..][i]) && forall j | 0 <= j < i :: a[1..][j] == b[1..][j];
        assert Less(a[i + 1], b[i + 1]);
        forall j | 0 <= j < i + 1 ensures a[j] == b[j] {
          assert j == 0 || (a[j] == a[1..][j - 1] && b[j] == b[1..][j - 1]);
        }
      }
    }
  }
}
