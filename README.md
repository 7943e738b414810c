# Chord finger table and component registry, in Dafny

This project models two in-memory structures of a small Chord
implementation written in Python, and proves properties of the model.

- **Chord finger table** (`chord_component.dfy`, module `Chord`). Each node
  has a finger table of `SYSTEM_SIZE_BITS` = 10 entries. Each entry pairs a
  fixed `start` with the node believed to succeed it. The model covers
  building the table, `update`, `successor()`, `join(None)`, and two
  read-only scans from the top index down: `FingerTable.find_successor` and
  `closest_preceding_finger`. It also covers `find_predecessor`, which hops
  from node to node.
- **Component registry** (`component_registry.dfy`, module `Registry`). This
  is a dictionary keyed by `component_name + str(component_instance_number)`,
  with insert/overwrite, lookup by key and reverse lookup by instance. The
  model also covers the memoising `singleton` wrapper around it.

Nodes are modelled by identity. A node is its integer id. A finger's node
reference is the id of the component it points to. A ring is a
`map<NodeId, ChordComponent>`, so `FindPredecessor` can walk several tables.
All arithmetic is plain integer arithmetic, as in the source:

- starts are `owner + 2^i` with no reduction;
- every interval test is an ordinary `<` or `<=`;
- nothing wraps around.

The finger table is a class. Its `entries` is an `array<FingerEntry>` that
`Update` and `Join` write in place. Each scan is a specification function
over `entries[..]`, with lemmas about it, and a read-only method with a
`while` loop that is proved equal to that function. The registry is a class
too. Its dictionary is a `map` plus a `seq` of keys, because Python
dictionaries keep insertion order. Overwriting an existing key keeps that
key's place in the order.

Three lines of the source are evidently mis-typed. The model follows the
evident intent, and the Dafny comments mark each place:

- chord/chord_component.py:125 reads `other_node.node_id.successor.node_id`.
  The model uses the successor of `other_node`.
- chord/chord_component.py:134 indexes `FingerTable`, which has no indexing.
  The model returns the node of entry `i`.
- chord/chord_component.py:135 returns `self.node_id`. Under the identity
  model that id is the node itself, so the model returns it as "no finger
  found".

Error paths are results, not preconditions:

- `FingerTable.find_successor` reads `entries[10]` at `i = 9`. Python's chained
  comparison reads that operand only when `entries[9].node < id`. The model
  returns `IndexOutOfRange` in exactly that case.
- `update` with an index outside `-10..9` raises `IndexError`. The model
  returns `ok == false` and changes nothing. A negative index counts from
  the end, as in Python.
- `get_component_by_key` on a missing key raises `KeyError`. The model
  returns `None`.
- In `find_predecessor`, a node where `closest_preceding_finger` finds no
  finger would repeat the same step forever. The state does not change, so
  the loop never ends. The model stops there with `Stalled(node)`.
  Every real hop goes strictly forward towards `id`, and this is the
  termination measure. A lone node, whose every finger is itself, always
  stalls (`LoneNodeStalls`, `LoneNodeWalk`).

## Model

| member | source | states |
|---|---|---|
| `Chord.FingerTable.constructor` | chord/chord_component.py:33-35 | a fresh table has exactly 10 entries, and entry i is (owner + 2^i, owner) with no modulus |
| `Chord.FingerTable.Update` | chord/chord_component.py:37-38 | `update(i, s)` replaces only the node of entry i (a negative i counts from the end); every start and every other entry is unchanged; an index outside -10..9 is an IndexError that changes nothing |
| `Chord.FingerTable.FindSuccessor` | chord/chord_component.py:40-44 | the top-down scan equals the specification `FindSuccessorOf`, and it fails exactly when the node of entry 9 is below id |
| `Chord.FindSuccessorCases` | chord/chord_component.py:40-44 | find_successor fails (reads entries[10]) iff entries[9].node < id; otherwise it returns the node of the highest k in 1..8 with entries[k].node < id < entries[k+1].node, or the owner when there is none |
| `Chord.SuccessorScanCases` | chord/chord_component.py:41-44 | below the top index the scan never reads past the table, and it returns the highest qualifying node or the owner |
| `Chord.ChordComponent.constructor` | chord/chord_component.py:62-64 | on_init: the node id is the instance number, and the new table points every entry at the node itself |
| `Chord.ChordComponent.Successor` | chord/chord_component.py:85-86 | successor() is the node of entry 0 |
| `Chord.ChordComponent.Join` | chord/chord_component.py:96-98 | after join(None) every entry's node is the joining component and every start is untouched; successor() is then the component itself |
| `Chord.ChordComponent.ClosestPrecedingFinger` | chord/chord_component.py:131-135 | the scan equals the specification `ClosestPreceding`; a returned finger lies strictly between the node and id, and each result is the node itself or the finger of some index 1..9 |
| `Chord.PrecedingScanCases` | chord/chord_component.py:132-135 | closest_preceding_finger returns the node of the highest index in 9..1 with self < node < id, or self exactly when no index qualifies |
| `Chord.PrecedingScanHighest` | chord/chord_component.py:132-134 | whenever k is the highest qualifying index, the result is entries[k].node |
| `Chord.PrecedingScanBetween` | chord/chord_component.py:132-135 | a result other than self lies strictly between self and id; a result is self or one of the fingers 1..i |
| `Chord.PrecedingScanIgnoresIndexZero` | chord/chord_component.py:132 | index 0 is never considered: replacing entry 0 never changes the result |
| `Chord.PrecedingScanPastTarget` | chord/chord_component.py:133-135 | when id <= self no finger qualifies and the result is self |
| `Chord.LoneTableSuccessor` | chord/chord_component.py:40-44 | on a table whose every finger is its owner n, find_successor returns n for id <= n and fails for id > n |
| `Chord.LoneTablePreceding` | chord/chord_component.py:131-135 | on a table whose every finger is its owner n, closest_preceding_finger finds no finger and returns n |
| `Chord.LoneNodeStalls` | chord/chord_component.py:123-135 | a lone node never holds id in its successor interval, and its closest_preceding_finger returns the node itself |
| `Chord.LoneNodeWalk` | chord/chord_component.py:123-129 | find_predecessor started at a lone node returns Stalled at that node with no hop, where the source's loop never ends |
| `Chord.ChordComponent.FindPredecessor` | chord/chord_component.py:123-129 | a returned node p satisfies p < id <= successor(p) (the negated loop guard); the node itself is returned with no hop when it already covers id; each hop goes from a node failing the guard to its closest_preceding_finger(id), strictly between the node and id; a stall is reported at a node that fails the guard and has no preceding finger |
| `Registry.NatToDecimalRoundTrip` | chord/component_registry.py:32 | str of a natural number is a non-empty digit string that reads back as the number |
| `Registry.IntToDecimalRoundTrip` | chord/component_registry.py:32 | str(n), with its minus sign for negative n, reads back as n |
| `Registry.Key` | chord/component_registry.py:32 | the key is component_name followed by str(instance number), whose digits read back as the number; get_component_by_key (line 38) builds the same key |
| `Registry.KeyInjectiveForName` | chord/component_registry.py:38 | for a fixed component name the key determines the instance number |
| `Registry.KeyCollision` | chord/component_registry.py:32 | the key is a plain concatenation: ("node1", 2) and ("node", 12) are distinct pairs with the same key "node12" |
| `Registry.KeysOfMembers` | chord/component_registry.py:22-27 | the reverse lookup of x lists a key exactly when the key is in the registry and maps to x; an empty list when there is none |
| `Registry.KeysOfOrdered` | chord/component_registry.py:23-26 | keys are listed in the registry's iteration (insertion) order |
| `Registry.AddThenFindByInstance` | chord/component_registry.py:32-33 | after adding c, the reverse lookup of c contains c's key |
| `Registry.ComponentRegistry.constructor` | chord/component_registry.py:17 | a new registry is empty |
| `Registry.ComponentRegistry.AddComponent` | chord/component_registry.py:32-33 | add_component stores c under name + str(number), overwriting any earlier value there; all other keys and values are unchanged; a new key goes to the end of the order and an overwritten key keeps its place |
| `Registry.ComponentRegistry.GetComponentByKey` | chord/component_registry.py:38-39 | returns the component stored under the key, and None (KeyError) exactly when the key was never added |
| `Registry.ComponentRegistry.GetComponentByInstance` | chord/component_registry.py:22-27 | the appending loop returns exactly the keys whose stored value is x, in iteration order |
| `Registry.AddThenLookup` | chord/component_registry.py:32-39 | after add_component(c), get_component_by_key(c's name, c's number) returns c and get_component_by_instance(c) contains c's key |
| `Registry.CollidingAdds` | chord/component_registry.py:32-39 | two components with equal concatenated keys share one slot; the later add overwrites the earlier |
| `Registry.RegistrySingleton.constructor` | chord/component_registry.py:5 | the wrapper's cache starts empty |
| `Registry.RegistrySingleton.Call` | chord/component_registry.py:6-9 | the first call constructs a fresh, empty registry and caches it; every later call returns that same object and changes nothing |

## Left out

- Event and message plumbing is I/O through an external harness and is not
  modelled: `on_message_received`, `send_up`/`send_down`, the message
  header, payload and type classes, `GenericModel` with its event handlers
  and worker threads, and `connect_me_to_component` (chord/chord_component.py:99).
- `ChordComponent.find_successor` is a stub that does nothing
  (chord/chord_component.py:88-90).
- `init_finger_table` has no coherent behaviour to state. It calls that
  stub. It indexes `FingerTable`, which has no indexing. It replaces whole
  entry objects, which aliases them and discards their `start`
  (chord/chord_component.py:101-113).
- `update_other_nodes` sends messages and names a message type that does not
  exist (chord/chord_component.py:115-121).
- `join` with a peer only calls the two routines above.
- `ComponentRegistry.init` puts INIT events on component queues, which is
  event I/O (chord/component_registry.py:41-46).
- The constructor's registration of each component in the registry is
  harness wiring (chord/chord_component.py:59-60).
- `__init__` calls `join(None)` before `on_init` has created `node_id` and
  `finger_table` (chord/chord_component.py:58, 62-64). As written, the loop
  of `join(None)` then reads `self.finger_table` (line 97), which does not
  exist yet, and raises AttributeError. The constructor never finishes,
  unless the `GenericModel` base runs `on_init` first; that base is not
  part of this model. The model follows the evident intent. Its
  constructor does what `on_init` does, and `Join` is a separate call on
  the built table.
- Finger entries are values in the array. `update` and `join(None)` write a
  new entry value into the slot instead of changing a shared entry object.
  This is the same behaviour because no entry object is shared. Only
  `init_finger_table` would share them, and it is left out.
- Node identity is the node id. Two components with the same instance
  number would be one node in the model.
- Registry components are compared by reference, which is how Python's
  default `==` compares objects. A component class that overrides `__eq__`
  is not modelled.
- In the source, `components` is a class attribute shared by every
  `ComponentRegistry` instance. The model gives the dictionary to the one
  instance, which is equivalent under the singleton wrapper.
- Registry.RegistrySingleton.Call: takes no arguments. `ComponentRegistry()`
  accepts none, so the wrapper's "later arguments are ignored" behaviour is
  only the absence of arguments here.
- The `singleton` wrapper works for any class. The model has it for
  `ComponentRegistry`, the one class it decorates. Its `instances`
  dictionary can only ever be keyed by that class, so it is modelled as one
  slot that is empty or filled.
- Modular ring arithmetic, put/get, stabilize/notify/fix_fingers and RPC
  timeouts are not in these files and are not modelled.
- Concurrency is not modelled. The model is sequential.
