# Lost-acknowledgement debugging helpers of the drone simulator

This project is a Dafny model of the debugging helpers in `src/utilities/tester.py`. The drone
simulator's `Tester` uses them to look for routing bugs. All of it is in one module, `Debugging`
(`tester.dfy`).

- **State.** The tester writes to the dictionary `sent_acks`, which maps a node identifier to the
  list of entries recorded for that node. The dictionary starts empty when the metrics object is
  created. In the model it is the field `sentAcks: map<int, seq<E>>` of the class `Tester`. The
  entry type `E` is generic.
- **`add_ack`** is the method `Tester.AddAck`. It takes the sender's identifier, the parent's
  identifier and the value to append as separate arguments. The function `AfterAddAck` gives the
  same update as a function of the old dictionary, and the lemmas about the checks use it.
  The code behaves as written in three ways, and the model keeps all three:
  - the guard looks up the **sender**, but the initialisation and the append use the **parent**.
    So when the sender is not a key, the parent's earlier entries are discarded;
  - the appended value is whatever the caller passes. The source appends the tester object itself;
  - when the sender is a key and the parent is not, `sent_acks[parent] += [...]` reads a missing
    key. Python raises `KeyError` before anything is written, so the model returns
    `Fail(KeyError(parent))` and leaves the dictionary unchanged.
- **`reset_state`** is `Tester.ResetState`. It replaces the dictionary with an empty one.
- **`check_if_lost_ack`** is the function `CheckIfLostAck`. It returns the entries recorded for a
  drone minus the drone's current neighbours. The neighbour table is an input, given as a set of
  entries.
- **`check_if_lost_ack_depot`** is `CheckIfLostAckDepot`. It maps the depot's recorded entries
  to their identifiers and removes the keys of the depot's `nodes_list`. Reading `identifier`
  from an entry is the projection `identifier: E -> Option<int>`. When an entry has no such
  attribute, the set comprehension raises `AttributeError`, and the model returns
  `Err(AttributeError)`. This is what happens with the tester objects that `add_ack` appends.
  The comprehension runs left to right in `Identifiers`.
- **`test_wrong_hop_from_depot`** is the boolean `TestWrongHopFromDepot`. It is true exactly
  when the method prints the depot's table.

## Model

| member | source | states |
|---|---|---|
| `Debugging.AfterAddAck` | src/utilities/tester.py:15-18 | The update fails with KeyError(parent) exactly when the sender is a key and the parent is not. On success the parent becomes a key and no other key is added. The parent's list is its old list plus the value when the sender was a key, and otherwise the one-element list. Every other key keeps its list. |
| `Debugging.Tester.AddAck` | src/utilities/tester.py:15-18 | The in-place update. It has the same failure condition, and on failure the dictionary is unchanged. It states the same new keys, the parent's list and that other entries are unchanged. The result agrees with `AfterAddAck` on the old dictionary. |
| `Debugging.SameIdsOnlyAppend` | src/utilities/tester.py:16-18 | When the sender and the parent are the same node, the call never fails and only appends to that node's list. |
| `Debugging.MismatchDiscardsEntries` | src/utilities/tester.py:16-18 | When the sender is not a key but the parent is, the parent's list becomes just the new value, and its earlier entries are lost. |
| `Debugging.Tester.constructor` | src/utilities/tester.py:10-11 | A new tester sees an empty dictionary, as the metrics object creates it (`self.sent_acks = {}` in the simulation's `metrics.py`). |
| `Debugging.Tester.ResetState` | src/utilities/tester.py:45-46 | Afterwards the dictionary is empty, and the drone check returns the empty set for every drone and every neighbour set. |
| `Debugging.CheckIfLostAck` | src/utilities/tester.py:20-26 | With no key for the drone, the result is empty. Otherwise the result is a subset of the drone's recorded entries, and a recorded entry is in the result exactly when it is not a neighbour. The result is disjoint from the neighbours. |
| `Debugging.LostAcksAtMostRecorded` | src/utilities/tester.py:22-24 | A drone's lost set has no more elements than the number of entries recorded for it. |
| `Debugging.NoNeighbourEntriesAllLost` | src/utilities/tester.py:18-25 | When no recorded entry is a neighbour, every recorded entry is reported. Any drone with a non-empty list then gets a non-empty result. This is the case for the tester object appended on line 18. |
| `Debugging.AddAckLostAcks` | src/utilities/tester.py:15-26 | After a successful `add_ack`, every drone except the parent has the same lost set as before. The parent's lost set is its previous one (empty when the list was reinitialised) plus the appended value, unless that value is a neighbour. |
| `Debugging.Identifiers` | src/utilities/tester.py:32 | The comprehension fails with AttributeError exactly when some entry has no identifier. Otherwise it yields exactly the identifiers of the entries, and no more of them than there are entries. |
| `Debugging.CheckIfLostAckDepot` | src/utilities/tester.py:28-34 | With no depot key, the result is Ok of the empty set. It fails with AttributeError exactly when a recorded depot entry has no identifier. Otherwise an identifier is in the result exactly when some recorded entry has it and it is not a key of `nodes_list`. The result is disjoint from those keys and no larger than the depot's list. |
| `Debugging.ResetClearsChecks` | src/utilities/tester.py:20-46 | On the empty dictionary, the drone check is empty for every drone and neighbour set, and the depot check is Ok of the empty set. |
| `Debugging.TestWrongHopFromDepot` | src/utilities/tester.py:59-63 | The check reports only when the table is non-empty. |
| `Debugging.WrongHopIffSomeRow` | src/utilities/tester.py:60-62 | The check reports exactly when some row of the table has a hop count above one, so the emptiness guard is redundant. |
| `Debugging.WrongHopRowReports` | src/utilities/tester.py:60-62 | A table that contains a row with a hop count above one always reports. |

## Left out

- `lost_drones` (src/utilities/tester.py:36-43) is not modelled. Its only effect is printing. It also iterates `self.drones`, which the class never defines, so it raises `AttributeError` as written.
- `hop_count_tester` (src/utilities/tester.py:53-57) is not modelled. It selects drones by floating-point Euclidean distance, using `utilities.euclidean_distance` from a file that is not part of this model, and its only effect is coloured debug printing.
- Printing is not modelled. `TestWrongHopFromDepot` gives the condition under which the table is printed, not the text that is printed.
- The simulator back-reference, `Drone`, `Depot`, `AckDiscoveryPacket` and the neighbour table's `get_drones()` belong to files that are not part of this model. They become inputs: identifiers, a set of neighbour entries, a map from node identifier to `NodeInfo`, and an identifier projection.
- `CheckIfLostAck` takes the neighbours as a set. The source differences against the list returned by `get_drones()`, which gives the same result.
- Entry equality is Dafny value equality. Python's identity and `__hash__` semantics for the recorded objects are not modelled.
- `sent_acks` lives in the metrics object and the tester reaches it through the simulator. The model makes it the tester's own field, so sharing that dictionary with other code (aliasing) is not captured.
