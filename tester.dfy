/**
 * The lost-acknowledgement and hop-count debugging helpers of the drone
 * simulator's `Tester` (src/utilities/tester.py).
 *
 * The tester keeps, in the metrics object, a dictionary `sent_acks` from a
 * node identifier to the list of entries recorded for it. `AddAck` and
 * `ResetState` change that dictionary; the two lost-ack checks only read it
 * and are modelled as functions of its value. Drones, the depot and its
 * nodes table are external objects: they appear here as identifiers, a set
 * of neighbours and a map from node identifier to routing information.
 */
module Debugging {

  /** The Python exceptions the modelled code can raise. */
  datatype Failure =
    | KeyError(key: int)   // a dictionary read of a missing key
    | AttributeError       // a recorded entry that has no `identifier`

  datatype Result<T> = Ok(value: T) | Err(failure: Failure)

  /** The outcome of an operation that returns nothing in the source. */
  datatype Outcome = Pass | Fail(failure: Failure)

  datatype Option<T> = None | Some(value: T)

  /** One row of the depot's nodes table; the checks read only the hop count. */
  datatype NodeInfo = NodeInfo(hopCount: int)

  /** The value of `sent_acks`: node identifier to the entries recorded for it. */
  type AckMap<E> = map<int, seq<E>>

  /** The set of the entries of a list, as Python's `set(list)`. */
  function Elems<E>(s: seq<E>): set<E>
  {
    set e | e in s
  }

  lemma {:induction false} ElemsCard<E>(s: seq<E>)
    ensures |Elems(s)| <= |s|
  {
    if s != [] {
      ElemsCard(s[1..]);
      assert Elems(s) == {s[0]} + Elems(s[1..]) by {
        forall e ensures e in Elems(s) <==> e in {s[0]} + Elems(s[1..]) {
          if e in s && e != s[0] {
            var i :| 0 <= i < |s| && s[i] == e;
            assert s[1..][i - 1] == e;
          }
        }
      }
    }
  }

  // ---------------------------------------------------------------------
  // add_ack
  // ---------------------------------------------------------------------

  /**
   * The dictionary after one `add_ack(ack, parent)`, with the sender's
   * identifier, the parent's identifier and the appended value given
   * separately. The guard looks up the SENDER, but the initialisation and
   * the append use the PARENT; when the sender is already a key and the
   * parent is not, the `+=` reads a missing key and raises KeyError before
   * anything is written.
   */
  function AfterAddAck<E>(sentAcks: AckMap<E>, senderId: int, parentId: int, v: E): (r: Result<AckMap<E>>)
    ensures r.Err? <==> senderId in sentAcks && parentId !in sentAcks
    ensures r.Err? ==> r.failure == KeyError(parentId)
    ensures r.Ok? ==> r.value.Keys == sentAcks.Keys + {parentId}
    ensures r.Ok? && senderId in sentAcks ==> r.value[parentId] == sentAcks[parentId] + [v]
    ensures r.Ok? && senderId !in sentAcks ==> r.value[parentId] == [v]
    ensures r.Ok? ==> forall k :: k in sentAcks && k != parentId ==> r.value[k] == sentAcks[k]
  {
    var initialised := if senderId !in sentAcks then sentAcks[parentId := []] else sentAcks;
    if parentId in initialised then
      Ok(initialised[parentId := initialised[parentId] + [v]])
    else
      Err(KeyError(parentId))
  }

  /**
   * When the ack's sender and the parent are the same node, the guard and the
   * update agree: the call never fails and only appends to that node's list.
   */
  lemma SameIdsOnlyAppend<E>(sentAcks: AckMap<E>, id: int, v: E)
    ensures AfterAddAck(sentAcks, id, id, v).Ok?
    ensures AfterAddAck(sentAcks, id, id, v).value[id]
         == (if id in sentAcks then sentAcks[id] else []) + [v]
  {
  }

  /**
   * The key mismatch loses data: a parent that already has entries, whose
   * ack comes from a sender that is not a key, ends up with one entry only.
   */
  lemma MismatchDiscardsEntries<E>(sentAcks: AckMap<E>, senderId: int, parentId: int, v: E)
    requires senderId !in sentAcks && parentId in sentAcks
    ensures AfterAddAck(sentAcks, senderId, parentId, v).Ok?
    ensures AfterAddAck(sentAcks, senderId, parentId, v).value[parentId] == [v]
  {
  }

  // ---------------------------------------------------------------------
  // check_if_lost_ack and check_if_lost_ack_depot
  // ---------------------------------------------------------------------

  /**
   * The entries recorded for a drone that are not among its current
   * neighbours; nothing when the drone has no entry.
   */
  function CheckIfLostAck<E>(sentAcks: AckMap<E>, droneId: int, neighbours: set<E>): (lost: set<E>)
    ensures droneId !in sentAcks ==> lost == {}
    ensures droneId in sentAcks ==> lost <= Elems(sentAcks[droneId])
    ensures droneId in sentAcks ==>
      forall i :: 0 <= i < |sentAcks[droneId]| ==> (sentAcks[droneId][i] in lost <==> sentAcks[droneId][i] !in neighbours)
    ensures lost !! neighbours
  {
    if droneId in sentAcks then Elems(sentAcks[droneId]) - neighbours else {}
  }

  /** A drone never has more lost acks than entries recorded for it. */
  lemma LostAcksAtMostRecorded<E>(sentAcks: AckMap<E>, droneId: int, neighbours: set<E>)
    requires droneId in sentAcks
    ensures |CheckIfLostAck(sentAcks, droneId, neighbours)| <= |sentAcks[droneId]|
  {
    ElemsCard(sentAcks[droneId]);
    assert CheckIfLostAck(sentAcks, droneId, neighbours) <= Elems(sentAcks[droneId]);
  }

  /**
   * When no recorded entry can be a neighbour (the value appended by
   * `add_ack` is the tester itself, never a drone), every recorded entry is
   * reported lost, so a drone with any entry always has a non-empty result.
   */
  lemma NoNeighbourEntriesAllLost<E>(sentAcks: AckMap<E>, droneId: int, neighbours: set<E>)
    requires droneId in sentAcks
    requires forall i :: 0 <= i < |sentAcks[droneId]| ==> sentAcks[droneId][i] !in neighbours
    ensures CheckIfLostAck(sentAcks, droneId, neighbours) == Elems(sentAcks[droneId])
    ensures sentAcks[droneId] != [] ==> CheckIfLostAck(sentAcks, droneId, neighbours) != {}
  {
    if sentAcks[droneId] != [] {
      assert sentAcks[droneId][0] in CheckIfLostAck(sentAcks, droneId, neighbours);
    }
  }

  /**
   * The identifiers of a list of entries, `{e.identifier for e in acks}`,
   * evaluated left to right: the first entry without an identifier raises.
   */
  function Identifiers<E>(acks: seq<E>, identifier: E -> Option<int>): (r: Result<set<int>>)
    ensures r.Err? <==> exists i :: 0 <= i < |acks| && identifier(acks[i]).None?
    ensures r.Err? ==> r.failure == AttributeError
    ensures r.Ok? ==> forall id :: id in r.value <==> exists i :: 0 <= i < |acks| && identifier(acks[i]) == Some(id)
    ensures r.Ok? ==> |r.value| <= |acks|
    decreases |acks|
  {
    if acks == [] then Ok({})
    else
      match identifier(acks[0])
      case None => Err(AttributeError)
      case Some(id) =>
        match Identifiers(acks[1..], identifier)
        case Err(f) => Err(f)
        case Ok(rest) => Ok({id} + rest)
  }

  /**
   * The identifiers of the entries recorded under the depot's key that are
   * not keys of the depot's nodes table; nothing when the depot has no entry.
   */
  function CheckIfLostAckDepot<E>(sentAcks: AckMap<E>, depotId: int, nodesList: map<int, NodeInfo>,
                                  identifier: E -> Option<int>): (r: Result<set<int>>)
    ensures depotId !in sentAcks ==> r == Ok({})
    ensures r.Err? <==>
      (depotId in sentAcks && exists i :: 0 <= i < |sentAcks[depotId]| && identifier(sentAcks[depotId][i]).None?)
    ensures r.Err? ==> r.failure == AttributeError
    ensures r.Ok? && depotId in sentAcks ==>
      forall id :: id in r.value <==>
        (exists i :: 0 <= i < |sentAcks[depotId]| && identifier(sentAcks[depotId][i]) == Some(id)) && id !in nodesList
    ensures r.Ok? ==> r.value !! nodesList.Keys
    ensures r.Ok? && depotId in sentAcks ==> |r.value| <= |sentAcks[depotId]|
  {
    if depotId in sentAcks then
      match Identifiers(sentAcks[depotId], identifier)
      case Err(f) => Err(f)
      case Ok(ids) => Ok(ids - nodesList.Keys)
    else
      Ok({})
  }

  /**
   * Recording an ack touches only the parent's lost set: every other drone's
   * result is unchanged, and the parent's result is its previous one (or
   * nothing, when the guard reinitialised the list) plus the appended value
   * unless that value is a neighbour.
   */
  lemma AddAckLostAcks<E>(sentAcks: AckMap<E>, senderId: int, parentId: int, v: E,
                          droneId: int, neighbours: set<E>)
    requires AfterAddAck(sentAcks, senderId, parentId, v).Ok?
    ensures droneId != parentId ==>
      CheckIfLostAck(AfterAddAck(sentAcks, senderId, parentId, v).value, droneId, neighbours)
      == CheckIfLostAck(sentAcks, droneId, neighbours)
    ensures droneId == parentId ==>
      CheckIfLostAck(AfterAddAck(sentAcks, senderId, parentId, v).value, droneId, neighbours)
      == (if senderId in sentAcks then CheckIfLostAck(sentAcks, parentId, neighbours) else {})
         + ({v} - neighbours)
  {
    var after := AfterAddAck(sentAcks, senderId, parentId, v).value;
    if droneId == parentId {
      var before := if senderId in sentAcks then sentAcks[parentId] else [];
      assert after[parentId] == before + [v];
      assert Elems(after[parentId]) == Elems(before) + {v};
    }
  }

  // ---------------------------------------------------------------------
  // test_wrong_hop_from_depot
  // ---------------------------------------------------------------------

  /**
   * Whether the depot's table check reports (prints the table): it looks at
   * the hop count of every row only when the table is non-empty.
   */
  function TestWrongHopFromDepot(nodesList: map<int, NodeInfo>): (reports: bool)
    ensures reports ==> nodesList != map[]
  {
    if |nodesList| != 0 then
      exists id | id in nodesList :: nodesList[id].hopCount > 1
    else
      false
  }

  /**
   * The emptiness guard adds nothing to the `any`: the check reports exactly
   * when some row of the table has a hop count above one.
   */
  lemma WrongHopIffSomeRow(nodesList: map<int, NodeInfo>)
    ensures TestWrongHopFromDepot(nodesList) <==> exists id :: id in nodesList && nodesList[id].hopCount > 1
  {
    if exists id :: id in nodesList && nodesList[id].hopCount > 1 {
      var id :| id in nodesList && nodesList[id].hopCount > 1;
      assert |nodesList| != 0 by {
        assert nodesList.Keys != {};
      }
    }
  }

  /** Adding a row with a hop count above one always makes the check report. */
  lemma WrongHopRowReports(nodesList: map<int, NodeInfo>, id: int, info: NodeInfo)
    requires info.hopCount > 1
    ensures TestWrongHopFromDepot(nodesList[id := info])
  {
    assert id in nodesList[id := info];
  }

  // ---------------------------------------------------------------------
  // The mutable state
  // ---------------------------------------------------------------------

  /**
   * The tester, holding the `sent_acks` dictionary it updates (the
   * dictionary lives in the metrics object and is reached through the
   * simulator; here it is the tester's own field).
   */
  class Tester<E> {
    var sentAcks: AckMap<E>

    /** The metrics object starts with an empty dictionary. */
    constructor ()
      ensures sentAcks == map[]
    {
      sentAcks := map[];
    }

    /**
     * Records `v` for the parent, after reinitialising the parent's list
     * when the SENDER is not yet a key.
     */
    method AddAck(senderId: int, parentId: int, v: E) returns (status: Outcome)
      modifies this
      ensures status.Fail? <==> senderId in old(sentAcks) && parentId !in old(sentAcks)
      ensures status.Fail? ==> status.failure == KeyError(parentId) && sentAcks == old(sentAcks)
      ensures status.Pass? ==> sentAcks.Keys == old(sentAcks).Keys + {parentId}
      ensures status.Pass? && senderId in old(sentAcks) ==> sentAcks[parentId] == old(sentAcks)[parentId] + [v]
      ensures status.Pass? && senderId !in old(sentAcks) ==> sentAcks[parentId] == [v]
      ensures forall k :: k in old(sentAcks) && k != parentId ==> k in sentAcks && sentAcks[k] == old(sentAcks)[k]
      ensures AfterAddAck(old(sentAcks), senderId, parentId, v)
           == if status.Pass? then Ok(sentAcks) else Err(status.failure)
    {
      if senderId !in sentAcks {
        sentAcks := sentAcks[parentId := []];
      }
      if parentId !in sentAcks {
        return Fail(KeyError(parentId));
      }
      sentAcks := sentAcks[parentId := sentAcks[parentId] + [v]];
      status := Pass;
    }

    /** Forgets every recorded entry; afterwards every check finds nothing. */
    method ResetState()
      modifies this
      ensures sentAcks == map[]
      ensures forall droneId: int, neighbours: set<E> :: CheckIfLostAck(sentAcks, droneId, neighbours) == {}
    {
      sentAcks := map[];
    }
  }

  /** After a reset both lost-ack checks return the empty set, for any node. */
  lemma ResetClearsChecks<E>(droneId: int, neighbours: set<E>, depotId: int,
                             nodesList: map<int, NodeInfo>, identifier: E -> Option<int>)
    ensures CheckIfLostAck(map[], droneId, neighbours) == {}
    ensures CheckIfLostAckDepot(map[], depotId, nodesList, identifier) == Ok({})
  {
  }
}
