# ThermalRecycling recipe registry and Matrix2D, modelled in Dafny

This project models two pieces of the ThermalRecycling mod.

**The Thermal Recycler recipe registry** (`RecipeData`). It is one ordered table from an item key to a recipe `{input stack, output stacks}`.

- `get` looks up the exact damage value first. If nothing is there, it tries the same item with the WILDCARD damage value, unless the input is itself a wildcard.
- `put` adds a recipe when the lookup finds nothing. It also adds one when the lookup finds a wildcard recipe and the new input is specific. In every other case it answers DUPLICATE and changes nothing.
- Before it inserts, `put` makes one pass over the caller's output list in place. The pass swaps each WILDCARD output stack for a concrete one when the ore dictionary knows a name for it and a concrete stack exists for that name.
- `getRecipe` and `getMinimumQuantityToRecycle` are derived queries. `toString` and `writeDiagnostic` produce the text form of a recipe and of the whole table.

**`Matrix2D<T>`**, a fixed-size grid kept in one flat array at index `row * cols + col`.

Files:

- `items.dfy`: module `Wrappers` holds `Option`. Module `ItemStacks` holds item stacks, the `(item, damage)` key, the WILDCARD constant and the host helpers. It also holds the ascending key order and the walk of a table's keys in that order.
- `recipes.dfy`: module `Recipes`. It holds the table, `Get`, `GetRecipe` and `GetMinimumQuantityToRecycle`, the guard and effect of `put`, the lemmas about them, and the class `RecipeRegistry` with `Put`.
- `recipe_text.dfy`: module `RecipeText`. It holds the recipe text (`toString`) and the diagnostic dump.
- `matrix2d.dfy`: module `Grid`. It holds the flat-index lemmas and the class `Matrix2D`.

Modelling choices:

- The static `TreeMap recipes` becomes the field `recipes: map<Key, RecipeData>` of a `RecipeRegistry` object.
- The table's comparator, `MyComparators.itemStackAscending`, is not part of this model. Two things are assumed about it:
  - it compares the item and then the damage value, both ascending;
  - it ignores stack size.
- `Key` carries exactly the item and the damage value.
- The lookups are pure functions of the table. `Put` is a method. It changes the registry and the caller's output list, which is an `array`. Its wildcard pass, `ResolveWildcards`, replaces elements of that array in place, as the source's loop does.
- WILDCARD is Forge's `OreDictionary.WILDCARD_VALUE`, 32767.
- Several host helpers are not part of this model. Each becomes a field of the `Host` parameter, as an uninterpreted total function:
  - `ItemHelper.getOreName`;
  - `ItemStackHelper.getItemStack`;
  - `ItemStackHelper.coelece`;
  - `MyUtils.compress`;
  - `ItemStackHelper.resolveName`.
- A `null` result of a host helper is `None`.
- Item stacks are values, so `input.copy()` and `ItemStackHelper.clone` of a list yield equal values.
- `writeDiagnostic` returns the sequence of strings it would hand to the `Writer`. `%d` is `IntText`, the decimal text of an int.
- In `Matrix2D`, a `null` cell is `None`. A method's precondition is what the Java array access demands: the flat index lies inside the array.

Notes on the code:

- `put` declares FAILURE (`RecipeData.java` line 50) but never returns it (lines 112-153).
- `Matrix2D.get` on an empty cell throws, because `Optional.of(null)` rejects null (`Matrix2D.java` line 50). `Get` therefore requires the cell to be present.
- `RecipeData.java` has no `freeze`, although `ModThermalRecycling.java` line 335 calls one.
- Coalescing and compressing the outputs (line 146) are host helpers, `ItemStackHelper.coelece` and `MyUtils.compress`. Neither is modelled.

## Model

| member | source | states |
|---|---|---|
| `Recipes.Get` | src/main/java/org/blockartistry/mod/ThermalRecycling/data/RecipeData.java:79-91 | The two-tier lookup. Any recipe it returns is filed under a key that matches the input (same item, same damage or WILDCARD). When the input's exact key is in the table, it returns that entry. |
| `Recipes.GetIsMostSpecificMatch` | src/main/java/org/blockartistry/mod/ThermalRecycling/data/RecipeData.java:79-91 | `get` finds a recipe iff some table key matches the input (same item, same damage or WILDCARD). It then returns the recipe under the most specific matching key: the exact key when present, else the wildcard key. A WILDCARD input is never retried. |
| `Recipes.GetFindsMatchingInput` | src/main/java/org/blockartistry/mod/ThermalRecycling/data/RecipeData.java:79-91 | In a well-keyed table, the recipe `get` returns has an input of the same item. Its damage is the input's own damage, or WILDCARD when the input is specific. |
| `Recipes.GetRecipe` | src/main/java/org/blockartistry/mod/ThermalRecycling/data/RecipeData.java:93-102 | `getRecipe` is null exactly when `get` is null. Otherwise it is the found recipe's outputs, element for element and in the same order. |
| `Recipes.RecipeData.MinimumInputStacksRequired` | src/main/java/org/blockartistry/mod/ThermalRecycling/data/RecipeData.java:71-73 | The recipe's input stack size. This is a plain getter. |
| `Recipes.GetMinimumQuantityToRecycle` | src/main/java/org/blockartistry/mod/ThermalRecycling/data/RecipeData.java:156-160 | 1 when `get` finds nothing. Otherwise the found recipe's input stack size (`getMinimumInputStacksRequired`, lines 71-73). |
| `Recipes.AdmitsIffKeyAbsent` | src/main/java/org/blockartistry/mod/ThermalRecycling/data/RecipeData.java:115-123 | In a well-keyed table, the guard of `put` holds iff the input's own (item, damage) key is not yet in the table. |
| `Recipes.ResolvedReplacesOnlyWildcards` | src/main/java/org/blockartistry/mod/ThermalRecycling/data/RecipeData.java:130-144 | The wildcard pass keeps the list's length and leaves non-WILDCARD positions as they were. A WILDCARD position becomes the concrete stack only when an ore name exists and the concrete lookup is non-null; otherwise it is left as it was. |
| `Recipes.InsertAddsFreshKey` | src/main/java/org/blockartistry/mod/ThermalRecycling/data/RecipeData.java:121-150 | A successful `put` on a well-keyed table adds a key the table did not have, so it never overwrites. The table grows by exactly one. All other entries stay as they were. The table stays well keyed. |
| `Recipes.GetAfterInsert` | src/main/java/org/blockartistry/mod/ThermalRecycling/data/RecipeData.java:79-91 | After the new recipe is inserted, `get` returns it for the input's own key. It also returns it for stacks that used to fall back to that key, when the key is the item's wildcard. Every other lookup is unchanged. |
| `Recipes.SpecificOverWildcard` | src/main/java/org/blockartistry/mod/ThermalRecycling/data/RecipeData.java:117-150 | A specific input over an existing wildcard recipe is admitted, and both recipes then coexist. `get` on the exact damage returns the new recipe. `get` on any other specific damage of the item without its own entry still returns the wildcard recipe. |
| `Recipes.PutAgainIsDuplicate` | src/main/java/org/blockartistry/mod/ThermalRecycling/data/RecipeData.java:112-153 | After a successful `put`, putting the same input again is rejected as DUPLICATE. |
| `Recipes.QueriesAfterPut` | src/main/java/org/blockartistry/mod/ThermalRecycling/data/RecipeData.java:146-160 | After a successful `put`, the input's minimum quantity to recycle is its own stack size, and `getRecipe` returns the stored outputs. |
| `Recipes.RecipeRegistry.constructor` | src/main/java/org/blockartistry/mod/ThermalRecycling/data/RecipeData.java:53-54 | The table starts empty and well keyed. |
| `Recipes.RecipeRegistry.ResolveWildcards` | src/main/java/org/blockartistry/mod/ThermalRecycling/data/RecipeData.java:130-144 | The in-place pass over the caller's output array. Afterwards the array is the old array with each position mapped by the wildcard replacement: a WILDCARD stack becomes the concrete stack when an ore name and a concrete stack exist, and every other position stays. |
| `Recipes.RecipeRegistry.Put` | src/main/java/org/blockartistry/mod/ThermalRecycling/data/RecipeData.java:108-154 | Returns SUCCESS exactly when the guard holds on the old table, else DUPLICATE; never FAILURE. On SUCCESS the caller's list holds the wildcard-resolved outputs. The table then equals the old table with the input's key mapped to `(input, compress(coalesce(resolved outputs)))`. On DUPLICATE neither the table nor the list changes. The table stays well keyed. |
| `RecipeText.JoinSnoc` | src/main/java/org/blockartistry/mod/ThermalRecycling/data/RecipeData.java:172-181 | Appending a part to a ", "-joined list adds the separator and then the part. This is the step of the string-builder loop. |
| `RecipeText.RecipeString` | src/main/java/org/blockartistry/mod/ThermalRecycling/data/RecipeData.java:162-186 | `toString` is `"[" + n + "x " + name + "] => ["`, then `"none"` for no outputs or the outputs as `"kx name"` joined by `", "` in list order, then `"]"`. |
| `RecipeText.RecipeLines` | src/main/java/org/blockartistry/mod/ThermalRecycling/data/RecipeData.java:192-193 | The for-each of `writeDiagnostic`. One line per key, in the keys' order, each the recipe's `toString` followed by a newline. |
| `ItemStacks.SortedKeysSpec` | src/main/java/org/blockartistry/mod/ThermalRecycling/data/RecipeData.java:53-54 | The walk order of the table lists every key exactly once, in strictly ascending (item, damage) order. |
| `ItemStacks.AscendingKeys` | src/main/java/org/blockartistry/mod/ThermalRecycling/data/RecipeData.java:192-193 | Walking the table's keys least-first yields exactly the ascending key order. |
| `RecipeText.WriteDiagnostic` | src/main/java/org/blockartistry/mod/ThermalRecycling/data/RecipeData.java:188-195 | The dump writes a header, a rule, one `toString` line per recipe in ascending key order, and a closing rule: table size + 3 writes. |
| `Grid.FlatIndexInRange` | src/main/java/org/blockartistry/mod/ThermalRecycling/util/Matrix2D.java:41-45 | For an in-range (row, col), `row * cols + col` lies in `[0, rows * cols)`. |
| `Grid.FlatIndexInjective` | src/main/java/org/blockartistry/mod/ThermalRecycling/util/Matrix2D.java:44-55 | Two cells whose columns are in range share a flat index only if they are the same cell. |
| `Grid.Matrix2D.constructor` | src/main/java/org/blockartistry/mod/ThermalRecycling/util/Matrix2D.java:38-42 | A new matrix has `rows * cols` cells and every cell is empty. `getRowCount` and `getColCount` (lines 57-63) return the constructor's arguments. They are constants, so nothing changes them. |
| `Grid.Matrix2D.IsPresent` | src/main/java/org/blockartistry/mod/ThermalRecycling/util/Matrix2D.java:44-46 | For an in-range cell, true iff the cell at (row, col) holds a value (is non-null). |
| `Grid.Matrix2D.Get` | src/main/java/org/blockartistry/mod/ThermalRecycling/util/Matrix2D.java:48-51 | Requires the cell to be present, since `Optional.of` rejects null. Returns the value the cell holds. |
| `Grid.Matrix2D.Set` | src/main/java/org/blockartistry/mod/ThermalRecycling/util/Matrix2D.java:53-55 | Stores the value at the flat index and changes no other array element. Afterwards `isPresent` is true iff the value is non-null, so storing null clears the cell. For an in-range cell, every other in-range cell keeps its value. |
| `Grid.Matrix2D.RowCount` | src/main/java/org/blockartistry/mod/ThermalRecycling/util/Matrix2D.java:57-59 | The row count. Times the column count, it is the size of the cell array. |
| `Grid.Matrix2D.ColCount` | src/main/java/org/blockartistry/mod/ThermalRecycling/util/Matrix2D.java:61-63 | The column count. Times the row count, it is the size of the cell array. |
| `Grid.SetThenGet` | src/main/java/org/blockartistry/mod/ThermalRecycling/util/Matrix2D.java:44-55 | On a new 3-by-4 matrix, setting (1, 2) makes `get(1, 2)` return the value, while neighbouring cells stay not present. |

## Left out

- `RecipeData.freeze`: it is called from the integration layer, but `RecipeData.java` has no such method. No freeze state or post-freeze policy is modelled.
- The null checks: the `RecipeData` constructor's `Preconditions.checkNotNull` (lines 60-61) and `put`'s own `checkNotNull(input)` and `checkNotNull(output)` (lines 109-110). A Dafny value cannot be null, so there is nothing to check.
- A null element of `put`'s `output` list: Java throws `NullPointerException` at line 134. A Dafny `array<ItemStack>` cannot hold null, so this case is not represented.
- `getInput` and `getOutput` are plain field reads in the model. The read-only view that `Collections.unmodifiableList` gives is not modelled.
- Object identity and aliasing of `ItemStack` and of the stored lists: stacks are values, so `copy` and `clone` cannot be told apart from the original.
- The behaviour of the host helpers (`getOreName`, `getItemStack`, `coelece`, `compress`, `resolveName`): they are uninterpreted. In particular, the model does not claim that coalescing sums quantities or that compressing caps stack sizes.
- The comparator `MyComparators.itemStackAscending` is not part of this model. The key order is assumed to be item then damage.
- The `Writer` and its `IOException`: the dump is modelled as the sequence of strings written.
- `Matrix2D` with a negative `rows` or `cols`: sizes are `nat`, so these are excluded. Java throws `NegativeArraySizeException` only when the product `rows * cols` is negative. Otherwise it builds a grid with negative counts, which the model does not represent.
- `Matrix2D` when `rows * cols` or `row * cols + col` overflows 32 bits: integers are unbounded in the model.
- Out-of-range calls to `Matrix2D` methods, where Java throws `ArrayIndexOutOfBoundsException`: they are excluded by the precondition.
- The integration layer (`ModThermalRecycling`), the block-harvest event hook, the MineTweaker bindings and the `CompostIngredient` enum are not part of this model. They are host-API glue.
