/** The small numbers by which the user interface names sockets. */
module SocketIds {
  datatype SocketKey = SocketKey(remote: nat, local: nat, transport: nat)

  /** The two maps are each other's inverse. */
  predicate Inverse(keyOf: map<nat, SocketKey>, idOf: map<SocketKey, nat>) {
    && (forall k :: k in idOf ==> idOf[k] in keyOf && keyOf[idOf[k]] == k)
    && (forall i :: i in keyOf ==> keyOf[i] in idOf && idOf[keyOf[i]] == i)
  }

  /** What a refresh with the sockets `live` makes of the ids. */
  predicate Refreshed(before: map<SocketKey, nat>, live: set<SocketKey>, after: map<SocketKey, nat>) {
    && after.Keys == live
    && (forall k :: k in before && k in live ==> after[k] == before[k])
    && (forall k, k' :: k in after && k' in after && k != k' ==> after[k] != after[k'])
  }

  /** Every key of `smaller` has the same id in `larger`. */
  ghost predicate Extends(larger: map<SocketKey, nat>, smaller: map<SocketKey, nat>) {
    forall k :: k in smaller ==> k in larger && larger[k] == smaller[k]
  }

  ghost function From(ids: set<nat>, count: nat): set<nat> {
    set i | i in ids && i >= count
  }

  lemma AddKeepsInverse(keyOf: map<nat, SocketKey>, idOf: map<SocketKey, nat>, key: SocketKey, id: nat)
    requires Inverse(keyOf, idOf) && key !in idOf && id !in keyOf
    ensures Inverse(keyOf[id := key], idOf[key := id])
  {
  }

  lemma InverseIsRefreshed(
      before: map<SocketKey, nat>, live: set<SocketKey>, keyOf: map<nat, SocketKey>, idOf: map<SocketKey, nat>)
    requires Inverse(keyOf, idOf) && idOf.Keys == live
    requires forall k :: k in before && k in live ==> idOf[k] == before[k]
    ensures Refreshed(before, live, idOf)
  {
  }

  class SocketIds {
    var idToSocketKey: map<nat, SocketKey>
    var socketKeyToId: map<SocketKey, nat>

    constructor ()
      ensures Inverse(idToSocketKey, socketKeyToId) && socketKeyToId == map[]
    {
      idToSocketKey, socketKeyToId := map[], map[];
    }

    /**
     `updataSocketIds`; the keys of the listen and the connection table together are `live`. Go visits both maps in
     an arbitrary order.
     */
    method Update(live: set<SocketKey>)
      requires Inverse(idToSocketKey, socketKeyToId)
      modifies this
      ensures Inverse(idToSocketKey, socketKeyToId)
      ensures Refreshed(old(socketKeyToId), live, socketKeyToId)
    {
      hide Inverse, Refreshed;
      ghost var before := socketKeyToId;
      var newIds, newKeys := KeepLive(live);
      newIds, newKeys := AddNew(live, newIds, newKeys);
      InverseIsRefreshed(before, live, newKeys, newIds);
      idToSocketKey := newKeys;
      socketKeyToId := newIds;
    }

    /** The second loop: each live socket without an id gets the next free one. */
    static method AddNew(live: set<SocketKey>, ids: map<SocketKey, nat>, keys: map<nat, SocketKey>)
      returns (newIds: map<SocketKey, nat>, newKeys: map<nat, SocketKey>)
      requires Inverse(keys, ids) && ids.Keys <= live
      ensures Inverse(newKeys, newIds) && newIds.Keys == live && Extends(newIds, ids)
    {
      hide Inverse;
      newIds, newKeys := ids, keys;
      var count := 0;
      var remaining := live;
      while remaining != {}
        invariant remaining <= live && Inverse(newKeys, newIds) && Extends(newIds, ids)
        invariant live - remaining <= newIds.Keys <= live
        decreases |remaining|
      {
        var key :| key in remaining;
        if key in newIds {
          count := count + 1;
        } else {
          newIds, newKeys, count := AddWithFreeId(key, newIds, newKeys, count);
        }
        remaining := remaining - {key};
      }
    }

    /** The search for an id that no socket has; it ends because only finitely many are taken. */
    static method AddWithFreeId(key: SocketKey, ids: map<SocketKey, nat>, keys: map<nat, SocketKey>, start: nat)
      returns (newIds: map<SocketKey, nat>, newKeys: map<nat, SocketKey>, count: nat)
      ensures count > start && count - 1 !in keys && forall i :: start <= i < count - 1 ==> i in keys
      ensures newIds == ids[key := count - 1] && newKeys == keys[count - 1 := key]
      ensures Inverse(keys, ids) && key !in ids ==> Inverse(newKeys, newIds)
    {
      hide Inverse;
      newIds, newKeys, count := ids, keys, start;
      var newOk := true;
      while newOk
        invariant newOk ==> count >= start && newIds == ids && newKeys == keys
                            && forall i :: start <= i < count ==> i in keys
        invariant !newOk ==> count > start && count - 1 !in keys && (forall i :: start <= i < count - 1 ==> i in keys)
                             && newIds == ids[key := count - 1] && newKeys == keys[count - 1 := key]
        decreases newOk, From(keys.Keys, count)
      {
        newOk := count in newKeys;
        if !newOk {
          newIds := newIds[key := count];
          newKeys := newKeys[count := key];
        }
        assert newOk ==> count in From(keys.Keys, count) && count !in From(keys.Keys, count + 1);
        count := count + 1;
      }
      if Inverse(keys, ids) && key !in ids {
        AddKeepsInverse(keys, ids, key, count - 1);
      }
    }

    /** The first loop: dead sockets are dropped from the old maps, the others are copied with their ids. */
    method KeepLive(live: set<SocketKey>) returns (newIds: map<SocketKey, nat>, newKeys: map<nat, SocketKey>)
      requires Inverse(idToSocketKey, socketKeyToId)
      modifies this
      ensures Inverse(newKeys, newIds)
      ensures newIds.Keys == old(socketKeyToId.Keys) * live && Extends(old(socketKeyToId), newIds)
    {
      newIds, newKeys := map[], map[];
      ghost var before := socketKeyToId;
      var remaining := socketKeyToId.Keys;
      while remaining != {}
        invariant remaining <= before.Keys && remaining <= socketKeyToId.Keys
        invariant forall k :: k in socketKeyToId ==> k in before && socketKeyToId[k] == before[k]
        invariant Inverse(newKeys, newIds)
        invariant newIds == map k | k in before && k in live && k !in remaining :: before[k]
        decreases |remaining|
      {
        var key :| key in remaining;
        var id := socketKeyToId[key];
        if key !in live {
          idToSocketKey := idToSocketKey - {id};
          socketKeyToId := socketKeyToId - {key};
        } else {
          assert forall k :: k in newIds ==> newIds[k] != id;
          newKeys := newKeys[id := key];
          newIds := newIds[key := id];
        }
        remaining := remaining - {key};
      }
    }
  }

  /** Over any number of refreshes a socket that stays alive keeps its id, and no other socket gets it meanwhile. */
  lemma {:induction false} IdsAreStable(
      tables: seq<map<SocketKey, nat>>, lives: seq<set<SocketKey>>, key: SocketKey, other: SocketKey)
    requires |tables| == |lives| + 1 && key in tables[0] && other != key
    requires forall i :: 0 <= i < |lives| ==> Refreshed(tables[i], lives[i], tables[i + 1]) && key in lives[i]
    requires other in tables[0] ==> tables[0][other] != tables[0][key]
    ensures var last := tables[|lives|];
            key in last && last[key] == tables[0][key] && (other in last ==> last[other] != last[key])
  {
    if lives != [] {
      var n := |lives| - 1;
      IdsAreStable(tables[..n + 1], lives[..n], key, other);
      assert Refreshed(tables[n], lives[n], tables[n + 1]);
    }
  }
}
