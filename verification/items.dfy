/** The Option datatype used for the Java code's nullable references. */
module Wrappers {
  datatype Option<+T> = None | Some(value: T)
}

/**
 * Item stacks as the recipe registry sees them, the key it files them
 * under, the order it lists them in, and the host game helpers it calls.
 */
module ItemStacks {
  import opened Wrappers

  /** The host's "any damage value" marker (Forge's OreDictionary.WILDCARD_VALUE). */
  const WILDCARD: int := 32767

  type ItemId = int

  /** A stack of one item type with a damage (sub-variant) value and a size. */
  datatype ItemStack = ItemStack(item: ItemId, damage: int, stackSize: int)

  /**
   * What the registry's comparator looks at: the item and its damage value.
   * The stack size takes no part in lookups.
   */
  datatype Key = Key(item: ItemId, damage: int)

  function KeyOf(s: ItemStack): Key {
    Key(s.item, s.damage)
  }

  /** The key of the same item with the damage value set to WILDCARD. */
  function WildcardKeyOf(s: ItemStack): Key {
    Key(s.item, WILDCARD)
  }

  /**
   * Host helpers whose code is not part of this model, passed in as total
   * functions: the ore dictionary name of a stack, the preferred concrete
   * stack for an ore name and a size, coalescing of equal stacks, splitting
   * into stack-size-capped stacks, and the display name of a stack.
   */
  datatype Host = Host(
    oreName: ItemStack -> Option<string>,
    itemStack: (string, int) -> Option<ItemStack>,
    coalesce: seq<ItemStack> -> seq<ItemStack>,
    compress: seq<ItemStack> -> seq<ItemStack>,
    resolveName: ItemStack -> string)

  /** The ascending key order of the registry's table: by item, then by damage. */
  predicate KeyLess(a: Key, b: Key) {
    a.item < b.item || (a.item == b.item && a.damage < b.damage)
  }

  predicate IsLeast(m: Key, s: set<Key>) {
    m in s && forall k :: k in s ==> !KeyLess(k, m)
  }

  predicate Ascending(ks: seq<Key>) {
    forall i, j :: 0 <= i < j < |ks| ==> KeyLess(ks[i], ks[j])
  }

  lemma {:induction false} LeastExists(s: set<Key>)
    requires s != {}
    ensures exists m :: IsLeast(m, s)
    decreases |s|
  {
    var x :| x in s;
    var rest := s - {x};
    if rest == {} {
      assert s == {x};
      assert IsLeast(x, s);
    } else {
      LeastExists(rest);
      var m :| IsLeast(m, rest);
      if KeyLess(x, m) {
        forall k | k in s ensures !KeyLess(k, x) {
          if k != x {
            assert !KeyLess(k, m);
          }
        }
        assert IsLeast(x, s);
      } else {
        assert IsLeast(m, s);
      }
    }
  }

  lemma LeastUnique(a: Key, b: Key, s: set<Key>)
    requires IsLeast(a, s) && IsLeast(b, s)
    ensures a == b
  {
  }

  ghost function LeastOf(s: set<Key>): (m: Key)
    requires s != {}
    ensures IsLeast(m, s)
  {
    LeastExists(s);
    var m :| IsLeast(m, s);
    m
  }

  /** The keys of s in ascending order: the order in which the table is walked. */
  ghost function SortedKeys(s: set<Key>): (r: seq<Key>)
    ensures |r| == |s|
    decreases |s|
  {
    if s == {} then [] else var m := LeastOf(s); [m] + SortedKeys(s - {m})
  }

  /** SortedKeys lists every key of s exactly once, in strictly ascending order. */
  lemma {:induction false} SortedKeysSpec(s: set<Key>)
    ensures |SortedKeys(s)| == |s|
    ensures Ascending(SortedKeys(s))
    ensures forall i :: 0 <= i < |SortedKeys(s)| ==> SortedKeys(s)[i] in s
    ensures forall k :: k in s ==> k in SortedKeys(s)
    decreases |s|
  {
    if s != {} {
      var m := LeastOf(s);
      var rest := s - {m};
      SortedKeysSpec(rest);
      var r := SortedKeys(rest);
      assert SortedKeys(s) == [m] + r;
      forall k | k in r ensures KeyLess(m, k) {
        assert k in rest;
      }
    }
  }

  lemma SortedKeysStep(s: set<Key>, m: Key)
    requires IsLeast(m, s)
    ensures SortedKeys(s) == [m] + SortedKeys(s - {m})
  {
    LeastUnique(m, LeastOf(s), s);
  }

  /** Walks the keys of a table in ascending order, least key first. */
  method AscendingKeys(s: set<Key>) returns (keys: seq<Key>)
    ensures keys == SortedKeys(s)
  {
    keys := [];
    var remaining := s;
    while remaining != {}
      invariant remaining <= s
      invariant keys + SortedKeys(remaining) == SortedKeys(s)
      decreases |remaining|
    {
      LeastExists(remaining);
      var m :| IsLeast(m, remaining);
      SortedKeysStep(remaining, m);
      keys := keys + [m];
      remaining := remaining - {m};
    }
  }
}
