/**
 * The Thermal Recycler recipe registry: a table from an item key to the
 * recipe registered for it, with a lookup that prefers the exact damage value
 * and falls back to the WILDCARD entry of the same item, and an insertion
 * that lets a specific recipe supersede a wildcard one but rejects every
 * other duplicate.
 */
module Recipes {
  import opened Wrappers
  import opened ItemStacks

  /** Return codes of Put. FAILURE is declared by the registry but never returned. */
  const SUCCESS: int := 0
  const FAILURE: int := 1
  const DUPLICATE: int := 2

  /** One recipe: the input stack (its size is the minimum to recycle) and what it yields. */
  datatype RecipeData = RecipeData(inputStack: ItemStack, outputStacks: seq<ItemStack>) {
    function MinimumInputStacksRequired(): (r: int)
      ensures r == inputStack.stackSize
    {
      inputStack.stackSize
    }
  }

  type Table = map<Key, RecipeData>

  /** Every recipe is filed under the key of its own input stack. */
  predicate WellKeyed(t: Table) {
    forall k :: k in t ==> KeyOf(t[k].inputStack) == k
  }

  /** A table key that a lookup for s may return: the exact key, or the item's wildcard key. */
  predicate Matches(k: Key, s: ItemStack) {
    k.item == s.item && (k.damage == s.damage || k.damage == WILDCARD)
  }

  /**
   * The two-tier lookup: the entry under the exact key, else (for a
   * non-wildcard input only) the entry under the item's wildcard key.
   */
  function Get(t: Table, input: ItemStack): (r: Option<RecipeData>)
    ensures r.Some? ==> exists k :: k in t && Matches(k, input) && t[k] == r.value
    ensures KeyOf(input) in t ==> r == Some(t[KeyOf(input)])
  {
    if KeyOf(input) in t then
      assert Matches(KeyOf(input), input);
      Some(t[KeyOf(input)])
    else if input.damage != WILDCARD && WildcardKeyOf(input) in t then
      assert Matches(WildcardKeyOf(input), input);
      Some(t[WildcardKeyOf(input)])
    else None
  }

  /**
   * Get finds a recipe exactly when some table key matches the input, and
   * then returns the one under the most specific matching key.
   */
  lemma GetIsMostSpecificMatch(t: Table, s: ItemStack)
    ensures Get(t, s).Some? <==> exists k :: k in t && Matches(k, s)
    ensures forall k :: k in t && Matches(k, s) && (k == KeyOf(s) || KeyOf(s) !in t) ==> Get(t, s) == Some(t[k])
  {
    if exists k :: k in t && Matches(k, s) {
      var k :| k in t && Matches(k, s);
      assert k == KeyOf(s) || k == WildcardKeyOf(s);
    }
    if KeyOf(s) in t {
      assert Matches(KeyOf(s), s);
    } else if s.damage != WILDCARD && WildcardKeyOf(s) in t {
      assert Matches(WildcardKeyOf(s), s);
    }
  }

  /** In a well-keyed table the recipe found is one for the input's item, at its damage value or WILDCARD. */
  lemma GetFindsMatchingInput(t: Table, s: ItemStack)
    requires WellKeyed(t)
    ensures Get(t, s).Some? ==>
      var d := Get(t, s).value.inputStack;
      d.item == s.item && (d.damage == s.damage || (d.damage == WILDCARD && s.damage != WILDCARD))
  {
  }

  /**
   * A copy of the outputs of the recipe Get finds, element for element, or
   * None. Stacks are values here, so the copy is the stored sequence itself.
   */
  function GetRecipe(t: Table, input: ItemStack): (r: Option<seq<ItemStack>>)
    ensures r.None? <==> Get(t, input).None?
    ensures r.Some? ==> |r.value| == |Get(t, input).value.outputStacks|
    ensures r.Some? ==> forall i :: 0 <= i < |r.value| ==> r.value[i] == Get(t, input).value.outputStacks[i]
  {
    match Get(t, input)
    case None => None
    case Some(data) => Some(data.outputStacks)
  }

  /** 1 when no recipe is found, otherwise the found recipe's input stack size. */
  function GetMinimumQuantityToRecycle(t: Table, item: ItemStack): (r: int)
    ensures Get(t, item).None? ==> r == 1
    ensures Get(t, item).Some? ==> r == Get(t, item).value.inputStack.stackSize
  {
    match Get(t, item)
    case None => 1
    case Some(recipe) => recipe.MinimumInputStacksRequired()
  }

  /**
   * The guard of Put: nothing is found, or what is found is a wildcard
   * recipe and the incoming input is specific.
   */
  predicate Admits(t: Table, input: ItemStack) {
    var found := Get(t, input);
    found.None? || (found.value.inputStack.damage == WILDCARD && input.damage != WILDCARD)
  }

  /** In a well-keyed table Put is admitted exactly when the input's own key is not yet taken. */
  lemma AdmitsIffKeyAbsent(t: Table, input: ItemStack)
    requires WellKeyed(t)
    ensures Admits(t, input) <==> KeyOf(input) !in t
  {
    if KeyOf(input) !in t && input.damage != WILDCARD && WildcardKeyOf(input) in t {
      assert KeyOf(t[WildcardKeyOf(input)].inputStack) == WildcardKeyOf(input);
    }
  }

  /** One output stack after the wildcard pass of Put. */
  function ResolveStack(host: Host, working: ItemStack): ItemStack {
    if working.damage != WILDCARD then working
    else match host.oreName(working)
      case None => working
      case Some(name) =>
        match host.itemStack(name, working.stackSize)
        case None => working
        case Some(concrete) => concrete
  }

  /** The output list after the wildcard pass of Put, position by position. */
  function Resolved(host: Host, outputs: seq<ItemStack>): seq<ItemStack> {
    seq(|outputs|, i requires 0 <= i < |outputs| => ResolveStack(host, outputs[i]))
  }

  /**
   * The wildcard pass keeps the list's length; a position changes only when
   * it holds a WILDCARD stack whose ore name is known and for which a
   * concrete stack exists, and then it holds that concrete stack.
   */
  lemma ResolvedReplacesOnlyWildcards(host: Host, outputs: seq<ItemStack>)
    ensures |Resolved(host, outputs)| == |outputs|
    ensures forall i :: 0 <= i < |outputs| && outputs[i].damage != WILDCARD ==> Resolved(host, outputs)[i] == outputs[i]
    ensures forall i :: 0 <= i < |outputs| && outputs[i].damage == WILDCARD ==>
      Resolved(host, outputs)[i] ==
        if host.oreName(outputs[i]).Some? && host.itemStack(host.oreName(outputs[i]).value, outputs[i].stackSize).Some?
        then host.itemStack(host.oreName(outputs[i]).value, outputs[i].stackSize).value
        else outputs[i]
  {
  }

  /** The outputs a successful Put files: the resolved list, coalesced, then compressed. */
  function StoredOutputs(host: Host, outputs: seq<ItemStack>): seq<ItemStack> {
    host.compress(host.coalesce(Resolved(host, outputs)))
  }

  /** The table after a successful Put: the input's key now holds the new recipe. */
  function Insert(t: Table, input: ItemStack, outputs: seq<ItemStack>): Table {
    t[KeyOf(input) := RecipeData(input, outputs)]
  }

  /**
   * A successful Put adds a key the table did not have (it never overwrites),
   * keeps every other entry, and keeps the table well keyed.
   */
  lemma {:induction false} InsertAddsFreshKey(t: Table, input: ItemStack, outputs: seq<ItemStack>)
    requires WellKeyed(t) && Admits(t, input)
    ensures KeyOf(input) !in t
    ensures Insert(t, input, outputs).Keys == t.Keys + {KeyOf(input)}
    ensures |Insert(t, input, outputs)| == |t| + 1
    ensures forall k :: k in t ==> Insert(t, input, outputs)[k] == t[k]
    ensures WellKeyed(Insert(t, input, outputs))
  {
    AdmitsIffKeyAbsent(t, input);
    assert Insert(t, input, outputs).Keys == t.Keys + {KeyOf(input)};
  }

  /**
   * What Get sees after an insertion: the new recipe for the inserted key,
   * and also for other damage values of the same item that fell back to the
   * wildcard key when the inserted input is the wildcard; every other lookup
   * is unchanged.
   */
  lemma GetAfterInsert(t: Table, input: ItemStack, outputs: seq<ItemStack>, s: ItemStack)
    ensures Get(Insert(t, input, outputs), s) ==
      if KeyOf(s) == KeyOf(input) then Some(RecipeData(input, outputs))
      else if KeyOf(s) !in t && s.damage != WILDCARD && WildcardKeyOf(s) == KeyOf(input) then Some(RecipeData(input, outputs))
      else Get(t, s)
  {
  }

  /**
   * A specific recipe put over a wildcard one: both are kept, the exact
   * damage value finds the new recipe, and every other specific damage value
   * of the item without its own entry still finds the wildcard recipe.
   */
  lemma {:induction false} SpecificOverWildcard(t: Table, input: ItemStack, outputs: seq<ItemStack>, other: ItemStack)
    requires WellKeyed(t)
    requires Get(t, input).Some? && Get(t, input).value.inputStack.damage == WILDCARD
    requires input.damage != WILDCARD
    requires other.item == input.item && other.damage != input.damage && other.damage != WILDCARD
    requires KeyOf(other) !in t
    ensures Admits(t, input)
    ensures WildcardKeyOf(input) in Insert(t, input, outputs) && KeyOf(input) in Insert(t, input, outputs)
    ensures Insert(t, input, outputs)[WildcardKeyOf(input)] == Get(t, input).value
    ensures Get(Insert(t, input, outputs), input) == Some(RecipeData(input, outputs))
    ensures Get(Insert(t, input, outputs), other) == Get(t, input)
  {
    var w := Get(t, input).value;
    AdmitsIffKeyAbsent(t, input);
    assert KeyOf(input) !in t;
    assert WildcardKeyOf(input) in t && t[WildcardKeyOf(input)] == w;
    GetAfterInsert(t, input, outputs, input);
    GetAfterInsert(t, input, outputs, other);
    assert WildcardKeyOf(other) == WildcardKeyOf(input);
  }

  /** Putting the same input again after a successful Put is rejected as a duplicate. */
  lemma {:induction false} PutAgainIsDuplicate(t: Table, input: ItemStack, outputs: seq<ItemStack>)
    requires WellKeyed(t) && Admits(t, input)
    ensures !Admits(Insert(t, input, outputs), input)
  {
    InsertAddsFreshKey(t, input, outputs);
    AdmitsIffKeyAbsent(Insert(t, input, outputs), input);
  }

  /**
   * After a successful Put the input finds its own recipe: its minimum
   * quantity is the input's stack size and its outputs are the stored ones.
   */
  lemma {:induction false} QueriesAfterPut(t: Table, input: ItemStack, outputs: seq<ItemStack>)
    ensures GetMinimumQuantityToRecycle(Insert(t, input, outputs), input) == input.stackSize
    ensures GetRecipe(Insert(t, input, outputs), input) == Some(outputs)
  {
    GetAfterInsert(t, input, outputs, input);
    var r := GetRecipe(Insert(t, input, outputs), input);
    assert r.value == outputs;
  }

  /**
   * The registry: one table for the whole recycler. A Put either files one
   * new recipe or leaves the table as it was.
   */
  class RecipeRegistry {
    var recipes: Table

    ghost predicate Valid()
      reads this
    {
      WellKeyed(recipes)
    }

    constructor ()
      ensures Valid() && recipes == map[]
    {
      recipes := map[];
    }

    /**
     * The wildcard pass of Put over the caller's output list, in place: each
     * WILDCARD stack with a known ore name and an existing concrete stack is
     * replaced by that concrete stack.
     */
    static method ResolveWildcards(host: Host, output: array<ItemStack>)
      modifies output
      ensures output[..] == Resolved(host, old(output[..]))
    {
      var i := 0;
      while i < output.Length
        invariant 0 <= i <= output.Length
        invariant forall j :: 0 <= j < i ==> output[j] == ResolveStack(host, old(output[j]))
        invariant forall j :: i <= j < output.Length ==> output[j] == old(output[j])
      {
        var working := output[i];
        if working.damage == WILDCARD {
          var oreName := host.oreName(working);
          if oreName.Some? {
            var concrete := host.itemStack(oreName.value, working.stackSize);
            if concrete.Some? {
              output[i] := concrete.value;
            }
          }
        }
        i := i + 1;
      }
    }

    /**
     * Adds the recipe when Admits allows it, after resolving the wildcard
     * stacks of the caller's output list in place; otherwise reports
     * DUPLICATE and changes nothing.
     */
    method Put(host: Host, input: ItemStack, output: array<ItemStack>) returns (code: int)
      requires Valid()
      modifies this, output
      ensures Valid()
      ensures code == (if Admits(old(recipes), input) then SUCCESS else DUPLICATE)
      ensures code != FAILURE
      ensures code == SUCCESS ==> output[..] == Resolved(host, old(output[..]))
      ensures code == SUCCESS ==> recipes == Insert(old(recipes), input, StoredOutputs(host, old(output[..])))
      ensures code == DUPLICATE ==> recipes == old(recipes) && output[..] == old(output[..])
    {
      code := DUPLICATE;
      var result := Get(recipes, input);
      if result.None? || (result.value.inputStack.damage == WILDCARD && input.damage != WILDCARD) {
        var stack := input;
        ResolveWildcards(host, output);
        var stored := host.compress(host.coalesce(output[..]));
        InsertAddsFreshKey(recipes, input, stored);
        recipes := recipes[KeyOf(stack) := RecipeData(stack, stored)];
        code := SUCCESS;
      }
    }
  }
}
