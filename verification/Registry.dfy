/** The handle registry: a map from handles to the objects that carry them, and its allocator. */
module Registry {
  import opened Wrappers
  import opened Ledger

  class Object {
    var m_handle: nat

    constructor ()
      ensures m_handle == NULL_HANDLE
    {
      m_handle := NULL_HANDLE;
    }
  }

  class HandleManager {
    var m_objects: map<nat, Object>

    constructor ()
      ensures m_objects == map[]
    {
      m_objects := map[];
    }

    /** Every key is a handle and is the handle of the object under it. */
    ghost predicate Valid()
      reads this, m_objects.Values
    {
      forall h :: h in m_objects ==> NULL_HANDLE < h <= MAX_HANDLE && m_objects[h].m_handle == h
    }

    /** The object carries no handle, or the one it is registered under. */
    ghost predicate Consistent(o: Object)
      reads this, o
    {
      o.m_handle != NULL_HANDLE ==> o.m_handle in m_objects && m_objects[o.m_handle] == o
    }

    method GetUniqueHandle(obj: Object) returns (handle: nat)
      ensures IsUnique(m_objects.Keys, obj.m_handle, handle)
      ensures obj.m_handle != 0 && obj.m_handle in m_objects ==> handle == obj.m_handle
      ensures m_objects == map[] ==> handle == 1
      ensures m_objects != map[] && (obj.m_handle == 0 || obj.m_handle !in m_objects) ==>
                if 0xffff_ffff in m_objects && forall k :: k in m_objects ==> k <= 0xffff_ffff then handle == 0
                else handle > 0 && handle - 1 in m_objects && forall k :: k in m_objects ==> k < handle
    {
      if obj.m_handle != NULL_HANDLE && obj.m_handle in m_objects {
        return obj.m_handle;
      } else if m_objects != map[] {
        var keys := m_objects.Keys;
        assert keys != {} by { var h :| h in m_objects; assert h in keys; }
        LastExists(keys);
        var last :| last in keys && forall k :: k in keys ==> k <= last;
        assert IsLast(keys, last);
        return if last == MAX_HANDLE then NULL_HANDLE else last + 1;
      } else {
        return 1;
      }
    }

    /** Enters the object unless its handle is already taken or none is left; a refusal changes nothing,
        and a new handle is greater than every live one. */
    method Insert(obj: Object) returns (handle: nat, inserted: bool)
      requires Valid()
      modifies this, obj
      ensures Valid()
      ensures inserted <==> !(old(obj.m_handle) != NULL_HANDLE && old(obj.m_handle) in old(m_objects))
                            && MAX_HANDLE !in old(m_objects)
      ensures inserted ==>
                && (forall k :: k in old(m_objects) ==> k < handle)
                && IsUnique(old(m_objects.Keys), NULL_HANDLE, handle)
                && NULL_HANDLE < handle <= MAX_HANDLE
                && m_objects == old(m_objects)[handle := obj] && obj.m_handle == handle
      ensures !inserted ==> m_objects == old(m_objects) && obj.m_handle == old(obj.m_handle)
      ensures !inserted ==> handle == if old(obj.m_handle) != NULL_HANDLE && old(obj.m_handle) in old(m_objects)
                                      then old(obj.m_handle) else NULL_HANDLE
    {
      var unique := GetUniqueHandle(obj);
      KeysOf(m_objects);
      if unique == NULL_HANDLE {
        return NULL_HANDLE, false;
      }
      if unique in m_objects {
        return unique, false;
      }
      m_objects := m_objects[unique := obj];
      obj.m_handle := unique;
      return unique, true;
    }

    /** Takes the object under a handle out and clears its handle. */
    method Remove(handle: nat) returns (obj: Option<Object>)
      requires Valid()
      modifies this, if handle in m_objects then {m_objects[handle]} else {}
      ensures Valid()
      ensures obj == if handle in old(m_objects) then Some(old(m_objects)[handle]) else None
      ensures m_objects == old(m_objects) - {handle}
      ensures obj.Some? ==> obj.value.m_handle == NULL_HANDLE
    {
      if handle != NULL_HANDLE {
        if handle in m_objects {
          var found := m_objects[handle];
          found.m_handle := NULL_HANDLE;
          m_objects := m_objects - {handle};
          return Some(found);
        }
      }
      return None;
    }

    /** Removes the objects of a list one by one; a second occurrence finds no handle any more. */
    method RemoveList(objects: seq<Object>)
      requires Valid() && forall o :: o in objects ==> Consistent(o)
      modifies this, set o | o in objects
      ensures Valid()
      ensures forall o :: o in objects ==> o.m_handle == NULL_HANDLE
      ensures m_objects == Without(old(m_objects), set o | o in objects)
    {
      for i := 0 to |objects|
        invariant Valid() && forall o :: o in objects ==> Consistent(o)
        invariant forall k :: 0 <= k < i ==> objects[k].m_handle == NULL_HANDLE
        invariant forall h :: h in m_objects ==> h in old(m_objects) && m_objects[h] == old(m_objects)[h]
        invariant forall h :: h in old(m_objects) ==> (h in m_objects || old(m_objects)[h] in objects)
      {
        assert objects[i] in objects;
        var removed := Remove(objects[i].m_handle);
      }
    }
  }

  lemma KeysOf(m: map<nat, Object>)
    ensures m.Keys == {} <==> m == map[]
  {
  }

  /** No object sits under two keys, and an object is found under its own handle only. */
  lemma NoTwoKeys(r: HandleManager, h: nat, k: nat)
    requires r.Valid() && h in r.m_objects && k in r.m_objects && r.m_objects[h] == r.m_objects[k]
    ensures h == k
  {
  }
}
