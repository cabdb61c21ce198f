/**
  Reading a form out of a provider page: every `<input>` becomes the one-field
  object `{[name]: value}` and the objects are folded, left to right, into
  one with `extend(true, acc, obj)`, starting from `{}`. `extend` skips a
  value that is `undefined`, and a later input overwrites an earlier one of
  the same name while the name keeps its first place in the key order.
*/
module InputFold {
  import opened Options
  import opened OrderedMaps

  /** One `<input>` element: its `name` and `value` attributes, `None` when absent. */
  datatype Input = Input(name: Option<string>, value: Option<string>)

  /** The property name `{[name]: value}` gets: an absent name prints as "undefined". */
  function KeyOf(x: Input): string {
    if x.name.Some? then x.name.value else "undefined"
  }

  /** Input `x` sets property `k`. */
  predicate Defines(x: Input, k: string) {
    KeyOf(x) == k && x.value.Some?
  }

  /** `extend(true, acc, {[name]: value})` for a string or `undefined` value. */
  function Merge(acc: OrderedMap, x: Input): OrderedMap {
    if x.value.Some? then acc.Put(KeyOf(x), x.value.value) else acc
  }

  /** `inputs.map(...).reduce((a, m) => extend(true, a, m), {})`. */
  function FoldInputs(xs: seq<Input>): OrderedMap
    decreases |xs|
  {
    if xs == [] then Empty() else Merge(FoldInputs(xs[..|xs| - 1]), xs[|xs| - 1])
  }

  /** Reference definition: the value of the last input that sets `k`. */
  function LastValue(xs: seq<Input>, k: string): (r: Option<string>)
    decreases |xs|
  {
    if xs == [] then None
    else if Defines(xs[|xs| - 1], k) then xs[|xs| - 1].value
    else LastValue(xs[..|xs| - 1], k)
  }

  /** Reference definition: index of the first input that sets `k`, `|xs|` when none does. */
  function First(xs: seq<Input>, k: string): (i: nat)
    ensures i <= |xs|
  {
    if xs == [] then 0 else if Defines(xs[0], k) then 0 else 1 + First(xs[1..], k)
  }

  lemma {:induction false} FirstSnoc(xs: seq<Input>, x: Input, k: string)
    ensures First(xs + [x], k) ==
      if First(xs, k) < |xs| then First(xs, k) else if Defines(x, k) then |xs| else |xs| + 1
  {
    if xs != [] {
      assert (xs + [x])[1..] == xs[1..] + [x];
      FirstSnoc(xs[1..], x, k);
    }
  }

  /**
    The fold is last-wins: each property holds the value of the last input
    that sets it, and properties no input sets (only `undefined` values, or
    no such name) are absent.
  */
  lemma {:induction false} FoldLastWins(xs: seq<Input>)
    ensures FoldInputs(xs).Valid()
    ensures forall k :: FoldInputs(xs).Get(k) == LastValue(xs, k)
    decreases |xs|
  {
    if xs != [] {
      FoldLastWins(xs[..|xs| - 1]);
    }
  }

  /**
    The property order is the order in which names first receive a value:
    a name listed before another was set by an earlier input.
  */
  lemma {:induction false} FoldKeyOrder(xs: seq<Input>)
    ensures var m := FoldInputs(xs);
      && m.Valid()
      && (forall k :: k in m.vals <==> First(xs, k) < |xs|)
      && (forall a, b :: 0 <= a < b < |m.keys| ==> First(xs, m.keys[a]) < First(xs, m.keys[b]))
    decreases |xs|
  {
    if xs != [] {
      var init := xs[..|xs| - 1];
      var x := xs[|xs| - 1];
      assert xs == init + [x];
      FoldKeyOrder(init);
      forall k {
        FirstSnoc(init, x, k);
      }
    }
  }

  /** The form read back from the edit step, with `form.confirm = ''` added. */
  function EditResponseForm(xs: seq<Input>): OrderedMap {
    FoldInputs(xs).Put("confirm", "")
  }

  /**
    The confirm form has `confirm` empty and every other property as the fold
    left it; when no input set `confirm`, it is the last property.
  */
  lemma EditResponseConfirm(xs: seq<Input>)
    ensures var m := EditResponseForm(xs);
      && m.Valid()
      && m.Get("confirm") == Some("")
      && (forall k :: k != "confirm" ==> m.Get(k) == LastValue(xs, k))
      && (LastValue(xs, "confirm").None? ==> m.keys == FoldInputs(xs).keys + ["confirm"])
      && (LastValue(xs, "confirm").Some? ==> m.keys == FoldInputs(xs).keys)
  {
    FoldLastWins(xs);
  }
}
