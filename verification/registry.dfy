/** The list semantics of the module registry: the ordered list of module
    class names that config/modules.php returns, and what registering,
    unregistering and replacing an identifier do to it.

    PHP's `in_array` and `array_search` compare loosely (`==`); this model
    compares identifiers with exact string equality. */
module Registry {

  datatype Option<T> = None | Some(value: T)

  /** No identifier occurs twice in the list. */
  ghost predicate NoDuplicates(list: seq<string>) {
    forall i, j :: 0 <= i < j < |list| ==> list[i] != list[j]
  }

  /** The index `array_search` finds: the first position holding `id`. */
  function FirstIndex(list: seq<string>, id: string): (i: nat)
    requires id in list
    ensures i < |list| && list[i] == id
    ensures id !in list[..i]
  {
    if list[0] == id then 0
    else
      assert id in list[1..] by { assert list == [list[0]] + list[1..]; }
      var j := FirstIndex(list[1..], id);
      assert list[..j + 1] == [list[0]] + list[1..][..j];
      j + 1
  }

  /** A position that holds `id` and has no earlier `id` is the first index. */
  lemma FirstIndexUnique(list: seq<string>, id: string, i: nat)
    requires i < |list| && list[i] == id && id !in list[..i]
    ensures FirstIndex(list, id) == i
  {
    var f := FirstIndex(list, id);
    forall k | 0 <= k < i ensures list[k] != id {
      assert list[..i][k] == list[k];
    }
    forall k | 0 <= k < f ensures list[k] != id {
      assert list[..f][k] == list[k];
    }
  }

  /** `array_search` as the linear scan PHP performs: the first index holding
      `id`, or nothing when `id` is absent. */
  method ArraySearch(list: seq<string>, id: string) returns (index: Option<nat>)
    ensures index.None? <==> id !in list
    ensures index.Some? ==> id in list && index.value == FirstIndex(list, id)
  {
    var i := 0;
    while i < |list|
      invariant 0 <= i <= |list|
      invariant id !in list[..i]
    {
      if list[i] == id {
        FirstIndexUnique(list, id, i);
        return Some(i);
      }
      assert list[..i + 1] == list[..i] + [list[i]];
      i := i + 1;
    }
    assert list[..i] == list;
    return None;
  }

  /** `loadModule` on the list: append `id` unless it is already there. */
  function Register(list: seq<string>, id: string): (r: seq<string>)
    ensures id in list ==> r == list
    ensures id !in list ==> r == list + [id]
    ensures id in r
    ensures forall x :: x in r <==> x in list || x == id
    ensures |list| <= |r| && r[..|list|] == list
    ensures |r| == |list| + 1 <==> id !in list
  {
    if id in list then list else list + [id]
  }

  /** `unloadModule` on the list: drop the first occurrence of `id`, keeping
      the other entries in their order; nothing happens when `id` is absent. */
  function Unregister(list: seq<string>, id: string): (r: seq<string>)
    ensures id !in list ==> r == list
    ensures id in list ==> |r| == |list| - 1
    ensures multiset(r) == multiset(list) - multiset{id}
  {
    if id !in list then list
    else
      var i := FirstIndex(list, id);
      assert list == list[..i] + [id] + list[i + 1..];
      list[..i] + list[i + 1..]
  }

  /** `updateModule` on the list: unregister `from`, then register `to`.
      Afterwards `to` is present, every other identifier except `from` is
      registered exactly when it was before, and the list has lost at most
      one entry or gained at most one. ReplaceSwaps says more for a
      duplicate-free list. */
  function Replace(list: seq<string>, from: string, to: string): (r: seq<string>)
    ensures to in r
    ensures forall x :: x != from && x != to ==> (x in r <==> x in list)
    ensures |list| - 1 <= |r| <= |list| + 1
  {
    Register(Unregister(list, from), to)
  }

  /** Registering the identifiers of `ids` one after the other, as a run of
      install events does. */
  function RegisterAll(list: seq<string>, ids: seq<string>): seq<string>
    decreases |ids|
  {
    if ids == [] then list else RegisterAll(Register(list, ids[0]), ids[1..])
  }

  // ---------------------------------------------------------------------
  // Register

  /** Registering the same identifier twice is the same as registering it once. */
  lemma RegisterIdempotent(list: seq<string>, id: string)
    ensures Register(Register(list, id), id) == Register(list, id)
  {
  }

  /** Register never introduces a duplicate. */
  lemma RegisterKeepsNoDuplicates(list: seq<string>, id: string)
    requires NoDuplicates(list)
    ensures NoDuplicates(Register(list, id))
  {
    if id !in list {
      var r := list + [id];
      forall i, j | 0 <= i < j < |r| ensures r[i] != r[j] {
        if j == |list| {
          assert r[i] == list[i];
        }
      }
    }
  }

  /** Registering distinct new identifiers one by one appends them in order:
      from an empty registry, registering a, b, c gives [a, b, c]. */
  lemma {:induction false} RegisterAllAppends(list: seq<string>, ids: seq<string>)
    requires NoDuplicates(list + ids)
    ensures RegisterAll(list, ids) == list + ids
    decreases |ids|
  {
    if ids != [] {
      var all := list + ids;
      forall k | 0 <= k < |list| ensures list[k] != ids[0] {
        assert all[k] == list[k] && all[|list|] == ids[0];
      }
      assert Register(list, ids[0]) == list + [ids[0]];
      assert (list + [ids[0]]) + ids[1..] == all;
      RegisterAllAppends(list + [ids[0]], ids[1..]);
    }
  }

  /** Registering identifiers that are all present already changes nothing. */
  lemma {:induction false} RegisterAllPresent(list: seq<string>, ids: seq<string>)
    requires forall k :: 0 <= k < |ids| ==> ids[k] in list
    ensures RegisterAll(list, ids) == list
    decreases |ids|
  {
    if ids != [] {
      assert ids[0] in list;
      RegisterAllPresent(list, ids[1..]);
    }
  }

  // ---------------------------------------------------------------------
  // Unregister

  /** Unregister removes exactly the entry at the first match: entries before
      it stay where they are, entries after it move up by one. */
  lemma UnregisterRemovesFirst(list: seq<string>, id: string)
    requires id in list
    ensures var i, r := FirstIndex(list, id), Unregister(list, id);
      |r| == |list| - 1 &&
      (forall k :: 0 <= k < i ==> r[k] == list[k]) &&
      (forall k :: i <= k < |r| ==> r[k] == list[k + 1])
  {
  }

  /** Apart from `id`, the same identifiers are registered after Unregister. */
  lemma UnregisterKeepsOthers(list: seq<string>, id: string, x: string)
    requires x != id
    ensures x in Unregister(list, id) <==> x in list
  {
    assert x in multiset(Unregister(list, id)) <==> x in multiset(list);
  }

  /** In a duplicate-free registry, Unregister leaves no trace of `id` and
      keeps the registry duplicate-free. */
  lemma UnregisterKeepsNoDuplicates(list: seq<string>, id: string)
    requires NoDuplicates(list)
    ensures id !in Unregister(list, id)
    ensures NoDuplicates(Unregister(list, id))
  {
    if id in list {
      var i, r := FirstIndex(list, id), Unregister(list, id);
      UnregisterRemovesFirst(list, id);
      // Position k of r comes from position k, or k + 1 past the removed entry.
      forall k | 0 <= k < |r| ensures r[k] == list[if k < i then k else k + 1] { }
      forall p, q | 0 <= p < q < |r| ensures r[p] != r[q] {
        var sp, sq := (if p < i then p else p + 1), (if q < i then q else q + 1);
        assert sp < sq && list[sp] == r[p] && list[sq] == r[q];
      }
      forall k | 0 <= k < |r| ensures r[k] != id {
        var sk := if k < i then k else k + 1;
        assert list[sk] == r[k] && sk != i;
      }
    }
  }

  /** Unregister undoes a Register of a new identifier. */
  lemma UnregisterUndoesRegister(list: seq<string>, id: string)
    requires id !in list
    ensures Unregister(Register(list, id), id) == list
  {
    var r := list + [id];
    assert r[..|list|] == list;
    FirstIndexUnique(r, id, |list|);
  }

  // ---------------------------------------------------------------------
  // Replace

  /** Replacing `from` by a different `to` in a duplicate-free registry
      leaves `to` registered exactly once, `from` gone, every other
      identifier as it was, and the registry duplicate-free. */
  lemma ReplaceSwaps(list: seq<string>, from: string, to: string)
    requires NoDuplicates(list) && from != to
    ensures var r := Replace(list, from, to);
      NoDuplicates(r) && to in r && from !in r &&
      (forall i, j :: 0 <= i < |r| && 0 <= j < |r| && r[i] == to && r[j] == to ==> i == j) &&
      (forall x :: x != from && x != to ==> (x in r <==> x in list))
  {
    var u := Unregister(list, from);
    UnregisterKeepsNoDuplicates(list, from);
    RegisterKeepsNoDuplicates(u, to);
    var r := Register(u, to);
    forall x | x != from && x != to ensures x in r <==> x in list {
      UnregisterKeepsOthers(list, from, x);
    }
  }

  /** A registry holding only `from` holds only `to` after the replace. */
  lemma ReplaceOnly(from: string, to: string)
    ensures Replace([from], from, to) == [to]
  {
    assert FirstIndex([from], from) == 0;
  }
}
