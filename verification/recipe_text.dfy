/**
 * The text form of a recipe ("[2x Input] => [1x A, 3x B]") and the
 * diagnostic listing of the whole registry.
 */
module RecipeText {
  import opened Wrappers
  import opened ItemStacks
  import opened Recipes

  /** Decimal text of a natural number, most significant digit first. */
  function NatText(n: nat): (s: string)
    decreases n
  {
    if n < 10 then ["0123456789"[n]] else NatText(n / 10) + ["0123456789"[n % 10]]
  }

  /** What "%d" prints for an int. */
  function IntText(i: int): string {
    if i < 0 then "-" + NatText(-i) else NatText(i)
  }

  /** "kx name" for one stack. */
  function StackText(host: Host, s: ItemStack): string {
    IntText(s.stackSize) + "x " + host.resolveName(s)
  }

  function StackTexts(host: Host, stacks: seq<ItemStack>): (r: seq<string>)
    ensures |r| == |stacks|
  {
    seq(|stacks|, i requires 0 <= i < |stacks| => StackText(host, stacks[i]))
  }

  /** The parts in order with sep between each two neighbours. */
  function Join(parts: seq<string>, sep: string): string {
    if |parts| == 0 then ""
    else if |parts| == 1 then parts[0]
    else parts[0] + sep + Join(parts[1..], sep)
  }

  /** Appending one more part adds the separator and the part at the end. */
  lemma {:induction false} JoinSnoc(parts: seq<string>, sep: string, x: string)
    requires |parts| > 0
    ensures Join(parts + [x], sep) == Join(parts, sep) + sep + x
    decreases |parts|
  {
    if |parts| == 1 {
      assert parts + [x] == [parts[0], x];
      assert (parts + [x])[1..] == [x];
    } else {
      assert (parts + [x])[1..] == parts[1..] + [x];
      JoinSnoc(parts[1..], sep, x);
    }
  }

  /** "[nx name] => [" for the input stack of a recipe. */
  function Opening(host: Host, input: ItemStack): string {
    "[" + StackText(host, input) + "] => ["
  }

  /** "none" for no outputs, otherwise the outputs as "kx name" joined by ", ". */
  function OutputsText(host: Host, outputs: seq<ItemStack>): string {
    if |outputs| == 0 then "none" else Join(StackTexts(host, outputs), ", ")
  }

  /** The text of a recipe: its opening, its outputs, and a closing "]". */
  function Describe(host: Host, d: RecipeData): string {
    Opening(host, d.inputStack) + OutputsText(host, d.outputStacks) + "]"
  }

  /** Builds the text of a recipe piece by piece, as a string builder does. */
  method RecipeString(host: Host, d: RecipeData) returns (s: string)
    ensures s == Describe(host, d)
  {
    var opening := Opening(host, d.inputStack);
    var outs := d.outputStacks;
    var body := "";
    if |outs| == 0 {
      body := "none";
    } else {
      var sawOne := false;
      var i := 0;
      while i < |outs|
        invariant 0 <= i <= |outs|
        invariant sawOne == (i > 0)
        invariant body == Join(StackTexts(host, outs[..i]), ", ")
      {
        var text := StackText(host, outs[i]);
        assert StackTexts(host, outs[..i + 1]) == StackTexts(host, outs[..i]) + [text];
        if sawOne {
          JoinSnoc(StackTexts(host, outs[..i]), ", ", text);
          body := body + ", ";
        } else {
          sawOne := true;
        }
        body := body + text;
        i := i + 1;
      }
      assert outs[..i] == outs;
    }
    s := opening + body + "]";
  }

  const Header: string := "\nKnown Thermal Recycler Recipes:\n"
  const Rule: string := "=================================================================\n"

  /** One line of the diagnostic dump: the recipe's text and a newline. */
  function Line(host: Host, d: RecipeData): string {
    Describe(host, d) + "\n"
  }

  /** The dump's line for each key, in the order of the keys. */
  method RecipeLines(host: Host, table: Table, keys: seq<Key>) returns (lines: seq<string>)
    requires forall j :: 0 <= j < |keys| ==> keys[j] in table
    ensures |lines| == |keys|
    ensures forall j :: 0 <= j < |keys| ==> lines[j] == Line(host, table[keys[j]])
  {
    lines := [];
    var i := 0;
    while i < |keys|
      invariant 0 <= i <= |keys|
      invariant |lines| == i
      invariant forall j :: 0 <= j < i ==> lines[j] == Line(host, table[keys[j]])
    {
      var text := RecipeString(host, table[keys[i]]);
      var line := text + "\n";
      assert line == Line(host, table[keys[i]]);
      lines := lines + [line];
      i := i + 1;
    }
  }

  /**
   * The writes of the diagnostic dump: a header, a rule, one line per recipe
   * in ascending key order, and a closing rule.
   */
  method WriteDiagnostic(host: Host, registry: RecipeRegistry) returns (writes: seq<string>)
    ensures |writes| == |registry.recipes| + 3
    ensures writes[0] == Header && writes[1] == Rule && writes[|writes| - 1] == Rule
    ensures forall j :: 0 <= j < |registry.recipes| ==>
      SortedKeys(registry.recipes.Keys)[j] in registry.recipes &&
      writes[j + 2] == Line(host, registry.recipes[SortedKeys(registry.recipes.Keys)[j]])
  {
    var table := registry.recipes;
    var keys := AscendingKeys(table.Keys);
    assert |table| == |keys| && forall j :: 0 <= j < |keys| ==> keys[j] in table by {
      SortedKeysSpec(table.Keys);
    }
    var lines := RecipeLines(host, table, keys);
    writes := [Header, Rule] + lines + [Rule];
    forall j | 0 <= j < |table|
      ensures keys[j] in table && writes[j + 2] == Line(host, table[keys[j]])
    {
      assert writes[j + 2] == lines[j];
    }
  }
}
