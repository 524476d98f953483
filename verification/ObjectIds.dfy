/** The ids under which the bridge hands .NET objects to Lua (ObjectTranslator.cs), while Lua clears
    entries of its weak table of userdata and calls their finalizers later. */
module ObjectIds {

  datatype Option<+T> = None | Some(value: T)

  /** Push an object (null is None); a weak entry is cleared; a finalizer runs. */
  datatype Event<T> = PushEvent(o: Option<T>) | ClearEvent(id: int) | FinalizeEvent(id: int)

  class Translator<T(==)> {
    var objects: map<int, T>
    var objectsBackMap: map<T, int>
    var nextObj: int
    /** luaNet_objects on the Lua side: the ids of the userdata that are still there, and of those that
        were cleared but not finalized. */
    var weak: set<int>
    var pending: set<int>

    /** The maps are inverse to each other, every userdata can be resolved, and no object is kept for
        which no finalizer is still to come. */
    ghost predicate Valid()
      reads this
    {
      && (forall id | id in objects :: objects[id] in objectsBackMap && objectsBackMap[objects[id]] == id)
      && (forall o | o in objectsBackMap :: objectsBackMap[o] in objects && objects[objectsBackMap[o]] == o)
      && weak !! pending && weak <= objects.Keys <= weak + pending
      && forall id | id in weak + pending :: id < nextObj
    }

    constructor ()
      ensures Valid() && objects == map[] && weak == pending == {}
    {
      objects, objectsBackMap, nextObj := map[], map[], 0;
      weak, pending := {}, {};
    }

    /** addObject. */
    method AddObject(o: T) returns (index: int)
      modifies this`objects, this`objectsBackMap, this`nextObj
      ensures index == old(nextObj) && nextObj == index + 1
      ensures objects == old(objects)[index := o] && objectsBackMap == old(objectsBackMap)[o := index]
    {
      index := nextObj;
      nextObj := nextObj + 1;
      objects := objects[index := o];
      objectsBackMap := objectsBackMap[o := index];
    }

    /** collectObject(object, int). */
    method CollectObject(o: T, udata: int)
      modifies this`objects, this`objectsBackMap
      ensures objects == old(objects) - {udata} && objectsBackMap == old(objectsBackMap) - {o}
    {
      objects := objects - {udata};
      objectsBackMap := objectsBackMap - {o};
    }

    /** collectObject(int), which a finalizer calls: the other variant may have been there first. */
    method CollectId(udata: int)
      modifies this`objects, this`objectsBackMap
      ensures udata !in old(objects) ==> objects == old(objects) && objectsBackMap == old(objectsBackMap)
      ensures udata in old(objects) ==>
                objects == old(objects) - {udata} && objectsBackMap == old(objectsBackMap) - {old(objects)[udata]}
    {
      if udata in objects {
        var o := objects[udata];
        objects := objects - {udata};
        objectsBackMap := objectsBackMap - {o};
      }
    }

    /** pushObject: the userdata that is left on the stack has an id that resolves to the object. */
    method PushObject(o: Option<T>) returns (id: Option<int>)
      requires Valid()
      modifies this
      ensures Valid() && pending == old(pending)
      ensures id.None? <==> o.None?
      ensures o.None? ==> objects == old(objects) && weak == old(weak)
      ensures o.Some? ==> weak == old(weak) + {id.value} && id.value in objects && objects[id.value] == o.value
      ensures o.Some? && o.value in old(objectsBackMap) && old(objectsBackMap)[o.value] in old(weak) ==>
                id.value == old(objectsBackMap)[o.value] && weak == old(weak) && objects == old(objects)
      ensures forall i | i in old(weak) :: i in weak && objects[i] == old(objects)[i]
    {
      if o.None? {
        return None;
      }
      if o.value in objectsBackMap {
        var index := objectsBackMap[o.value];
        if index in weak {
          return Some(index);
        }
        CollectObject(o.value, index);
      }
      var index := AddObject(o.value);
      weak := weak + {index};
      return Some(index);
    }

    /** Lua's collector clears the weak entry of an unreachable userdata. */
    method Clear(id: int)
      requires Valid() && id in weak
      modifies this`weak, this`pending
      ensures Valid() && weak == old(weak) - {id} && pending == old(pending) + {id}
    {
      weak, pending := weak - {id}, pending + {id};
    }

    /** The finalizer of a cleared userdata runs at last: no entry but its own is removed, and none at
        all if the object has a newer id by now. */
    method Finalize(id: int)
      requires Valid() && id in pending
      modifies this
      ensures Valid() && weak == old(weak) && pending == old(pending) - {id}
      ensures objects == old(objects) - {id}
      ensures forall o | o in old(objectsBackMap) && old(objectsBackMap)[o] != id ::
                o in objectsBackMap && objectsBackMap[o] == old(objectsBackMap)[o]
    {
      CollectId(id);
      pending := pending - {id};
    }

    /** Any interleaving of pushes, clearings and late finalizers: a userdata that is still there
        resolves to the object it was pushed for. */
    method Run(events: seq<Event<T>>) returns (pushed: map<int, T>)
      requires Valid() && weak == pending == {} && objects == map[]
      modifies this
      ensures Valid() && weak <= pushed.Keys
      ensures forall id | id in weak :: objects[id] == pushed[id]
    {
      pushed := map[];
      for i := 0 to |events|
        invariant Valid() && weak <= pushed.Keys
        invariant forall id | id in weak :: objects[id] == pushed[id]
      {
        match events[i] {
          case PushEvent(o) =>
            var id := PushObject(o);
            if id.Some? {
              pushed := pushed[id.value := o.value];
            }
          case ClearEvent(id) =>
            if id in weak {
              Clear(id);
            }
          case FinalizeEvent(id) =>
            if id in pending {
              Finalize(id);
            }
        }
      }
    }
  }
}
