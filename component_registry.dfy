/** Model of the component registry (chord/component_registry.py): a
    dictionary from `component_name + str(component_instance_number)` to
    the component, and the memoising `singleton` wrapper around it.

    Components are compared by identity, as Python's default `==` on
    objects does; here they are Dafny objects compared by reference. The
    dictionary keeps Python's insertion order: `order` lists its keys in
    the order they were first inserted. */
module Registry {

  datatype Option<T> = None | Some(value: T)

  // ---------------------------------------------------------------------
  // str(int) and the registry key

  function DigitChar(d: nat): char
    requires d < 10
  {
    "0123456789"[d]
  }

  /** Decimal digits of n, most significant first, without leading zeros. */
  function NatToDecimal(n: nat): string
  {
    if n < 10 then [DigitChar(n)] else NatToDecimal(n / 10) + [DigitChar(n % 10)]
  }

  /** Python's str(n) for an int: a minus sign for negative numbers. */
  function IntToDecimal(n: int): string
  {
    if n < 0 then "-" + NatToDecimal(-n) else NatToDecimal(n)
  }

  /** The registry key of a component with this name and instance number:
      the name, followed by the decimal of the number, which reads back as
      the number. */
  function Key(name: string, number: int): (key: string)
    ensures |key| > |name| && key[..|name|] == name
    ensures var digits := key[|name|..];
      && (forall i :: 1 <= i < |digits| ==> IsDigit(digits[i]))
      && (digits[0] == '-' || IsDigit(digits[0]))
      && DecimalValue(digits) == number
  {
    IntToDecimalRoundTrip(number);
    var key := name + IntToDecimal(number);
    assert key[|name|..] == IntToDecimal(number);
    key
  }

  predicate IsDigit(c: char)
  {
    '0' <= c <= '9'
  }

  /** Value of a string of decimal digits; the inverse of NatToDecimal. */
  function DigitsValue(s: string): int
    requires forall i :: 0 <= i < |s| ==> IsDigit(s[i])
  {
    if s == [] then 0
    else DigitsValue(s[..|s| - 1]) * 10 + (s[|s| - 1] as int - '0' as int)
  }

  /** Reads back a string produced by IntToDecimal. */
  function DecimalValue(s: string): int
    requires s != []
    requires forall i :: 1 <= i < |s| ==> IsDigit(s[i])
    requires s[0] == '-' || IsDigit(s[0])
  {
    if s[0] == '-' then -DigitsValue(s[1..]) else DigitsValue(s)
  }

  lemma {:induction false} NatToDecimalRoundTrip(n: nat)
    ensures NatToDecimal(n) != []
    ensures forall i :: 0 <= i < |NatToDecimal(n)| ==> IsDigit(NatToDecimal(n)[i])
    ensures DigitsValue(NatToDecimal(n)) == n
  {
    if n >= 10 {
      NatToDecimalRoundTrip(n / 10);
      var s := NatToDecimal(n);
      assert s[..|s| - 1] == NatToDecimal(n / 10);
    }
  }

  /** str(n) reads back as n: distinct numbers have distinct decimals. */
  lemma IntToDecimalRoundTrip(n: int)
    ensures var s := IntToDecimal(n);
      && s != []
      && (forall i :: 1 <= i < |s| ==> IsDigit(s[i]))
      && (s[0] == '-' || IsDigit(s[0]))
      && DecimalValue(s) == n
  {
    if n < 0 {
      NatToDecimalRoundTrip(-n);
      assert IntToDecimal(n)[1..] == NatToDecimal(-n);
    } else {
      NatToDecimalRoundTrip(n);
    }
  }

  /** For a fixed component name the key determines the instance number. */
  lemma KeyInjectiveForName(name: string, a: int, b: int)
    requires Key(name, a) == Key(name, b)
    ensures a == b
  {
  }

  /** The key is a plain concatenation, so different (name, number) pairs
      can share a key: ("node1", 2) and ("node", 12) both give "node12". */
  lemma KeyCollision()
    ensures ("node1", 2) != ("node", 12)
    ensures Key("node1", 2) == Key("node", 12) == "node12"
  {
  }

  // ---------------------------------------------------------------------
  // The registry

  /** What the registry reads of a component: its name and instance number. */
  class Component {
    const componentName: string
    const componentInstanceNumber: int

    constructor (name: string, instanceNumber: int)
      ensures componentName == name && componentInstanceNumber == instanceNumber
    {
      componentName := name;
      componentInstanceNumber := instanceNumber;
    }
  }

  /** The keys, in order, whose stored component is x. */
  function KeysOf(order: seq<string>, components: map<string, Component>, x: Component): seq<string>
  {
    if order == [] then []
    else
      var rest := KeysOf(order[..|order| - 1], components, x);
      var k := order[|order| - 1];
      if k in components && components[k] == x then rest + [k] else rest
  }

  /** A key is listed exactly when it is in the order and maps to x. */
  lemma {:induction false} KeysOfMembers(order: seq<string>, components: map<string, Component>, x: Component)
    ensures forall k :: k in KeysOf(order, components, x) <==> k in order && k in components && components[k] == x
  {
    if order != [] {
      KeysOfMembers(order[..|order| - 1], components, x);
      assert order == order[..|order| - 1] + [order[|order| - 1]];
    }
  }

  /** a comes before b in the order. */
  ghost predicate Before(order: seq<string>, a: string, b: string)
  {
    exists p, q :: 0 <= p < q < |order| && order[p] == a && order[q] == b
  }

  /** The listed keys keep their relative order in the dictionary. */
  lemma {:induction false} KeysOfOrdered(order: seq<string>, components: map<string, Component>, x: Component)
    ensures forall i, j :: 0 <= i < j < |KeysOf(order, components, x)| ==>
              Before(order, KeysOf(order, components, x)[i], KeysOf(order, components, x)[j])
  {
    if order != [] {
      var init := order[..|order| - 1];
      KeysOfOrdered(init, components, x);
      KeysOfMembers(init, components, x);
      var rest := KeysOf(init, components, x);
      var r := KeysOf(order, components, x);
      forall i, j | 0 <= i < j < |r|
        ensures Before(order, r[i], r[j])
      {
        if j < |rest| {
          assert r[i] == rest[i] && r[j] == rest[j];
          assert Before(init, rest[i], rest[j]);
          var p, q :| 0 <= p < q < |init| && init[p] == rest[i] && init[q] == rest[j];
          assert order[p] == r[i] && order[q] == r[j];
        } else {
          assert r[i] == rest[i] && rest[i] in init;
          var p :| 0 <= p < |init| && init[p] == rest[i];
          assert order[p] == r[i] && order[|order| - 1] == r[j];
        }
      }
    }
  }

  /** Registering a key in the order that was not there before. */
  function Registered(order: seq<string>, components: map<string, Component>, key: string): seq<string>
  {
    if key in components then order else order + [key]
  }

  /** After adding c, the reverse lookup of c lists c's key. */
  lemma AddThenFindByInstance(order: seq<string>, components: map<string, Component>, c: Component)
    requires forall k :: k in components <==> k in order
    ensures var key := Key(c.componentName, c.componentInstanceNumber);
      key in KeysOf(Registered(order, components, key), components[key := c], c)
  {
    var key := Key(c.componentName, c.componentInstanceNumber);
    KeysOfMembers(Registered(order, components, key), components[key := c], c);
  }

  /** ComponentRegistry: the `components` dictionary, with its insertion
      order. In the source `components` is a class attribute shared by all
      instances; the singleton wrapper makes there be one instance. */
  class ComponentRegistry {
    var order: seq<string>
    var components: map<string, Component>

    /** The order lists each key of the dictionary exactly once. */
    ghost predicate Valid()
      reads this
    {
      && (forall k :: k in components <==> k in order)
      && (forall i, j :: 0 <= i < j < |order| ==> order[i] != order[j])
    }

    constructor ()
      ensures Valid() && order == [] && components == map[]
    {
      order := [];
      components := map[];
    }

    /** add_component(c): stores c under its key, overwriting any component
        already there; an overwritten key keeps its place in the order. */
    method AddComponent(c: Component)
      requires Valid()
      modifies this
      ensures Valid()
      ensures var key := Key(c.componentName, c.componentInstanceNumber);
        && components == old(components)[key := c]
        && order == Registered(old(order), old(components), key)
    {
      var key := c.componentName + IntToDecimal(c.componentInstanceNumber);
      if key !in components {
        order := order + [key];
      }
      components := components[key := c];
    }

    /** get_component_by_key(name, number): the component stored under the
        key, or None where the dictionary raises KeyError. */
    method GetComponentByKey(name: string, number: int) returns (r: Option<Component>)
      ensures r.Some? <==> Key(name, number) in components
      ensures r.Some? ==> r.value == components[Key(name, number)]
    {
      var key := name + IntToDecimal(number);
      if key in components {
        r := Some(components[key]);
      } else {
        r := None;
      }
    }

    /** get_component_by_instance(x): the keys whose component is x, in the
        dictionary's order; empty when there are none. */
    method GetComponentByInstance(x: Component) returns (keys: seq<string>)
      requires Valid()
      ensures keys == KeysOf(order, components, x)
      ensures forall k :: k in keys <==> k in components && components[k] == x
    {
      KeysOfMembers(order, components, x);
      keys := [];
      var i := 0;
      while i < |order|
        invariant 0 <= i <= |order|
        invariant keys == KeysOf(order[..i], components, x)
      {
        assert order[..i + 1][..i] == order[..i];
        if components[order[i]] == x {
          keys := keys + [order[i]];
        }
        i := i + 1;
      }
      assert order[..i] == order;
    }
  }

  /** A client of the registry: what one component can rely on after
      registering. */
  method AddThenLookup(registry: ComponentRegistry, c: Component) returns (found: Option<Component>, keys: seq<string>)
    requires registry.Valid()
    modifies registry
    ensures registry.Valid()
    ensures found == Some(c)
    ensures Key(c.componentName, c.componentInstanceNumber) in keys
  {
    registry.AddComponent(c);
    found := registry.GetComponentByKey(c.componentName, c.componentInstanceNumber);
    keys := registry.GetComponentByInstance(c);
  }

  /** Two components whose name and number concatenate to the same key share
      one slot: the later add replaces the earlier. */
  method CollidingAdds(registry: ComponentRegistry, a: Component, b: Component) returns (found: Option<Component>)
    requires registry.Valid()
    requires Key(a.componentName, a.componentInstanceNumber) == Key(b.componentName, b.componentInstanceNumber)
    modifies registry
    ensures registry.Valid()
    ensures found == Some(b)
  {
    registry.AddComponent(a);
    registry.AddComponent(b);
    found := registry.GetComponentByKey(a.componentName, a.componentInstanceNumber);
  }

  /** The `singleton` wrapper applied to ComponentRegistry. Its `instances`
      dictionary can only ever hold the decorated class as key, so it is an
      empty or a filled slot. */
  class RegistrySingleton {
    var instance: ComponentRegistry?

    constructor ()
      ensures instance == null
    {
      instance := null;
    }

    /** Calling the wrapper: constructs the registry on the first call only;
        every later call returns that same object. */
    method Call() returns (r: ComponentRegistry)
      modifies this
      ensures old(instance) != null ==> r == old(instance) && instance == old(instance)
      ensures old(instance) == null ==> fresh(r) && r.Valid() && r.order == [] && r.components == map[]
      ensures instance == r
    {
      if instance == null {
        instance := new ComponentRegistry();
      }
      r := instance;
    }
  }
}
