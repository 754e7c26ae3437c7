/** The device registry of core/source/usb_lib.c: a list with a cursor. */
module DeviceList {
  import opened Descriptors
  import opened LinkedList

  const END := 504
  const ENOINIT := 502

  class Lib {
    const head: Node
    var isInit: bool
    var nDev: int
    var loca: Node
    ghost var devs: seq<Node>
    /** How many devices of the list the traversal has passed. */
    ghost var pos: nat

    ghost predicate Valid()
      reads this, head, devs
    {
      IsList(head, devs) && nDev == |devs|
    }

    /** The cursor stands on the head or on a device that is still registered. */
    ghost predicate CursorOk()
      reads this
    {
      pos <= |devs| && loca == At(head, devs, pos)
    }

    constructor ()
      ensures Valid() && CursorOk() && devs == [] && isInit && fresh(head)
    {
      head := new Node();
      nDev, devs, pos, isInit := 0, [], 0, true;
      loca := head;
      new;
      HeadInit(head);
    }

    /** `usb_lib_dev_add`. */
    method DevAdd(n: Node?) returns (ret: int)
      requires Valid() && (n != null ==> n != head && n !in devs)
      modifies this`nDev, this`devs, head, devs, n
      ensures Valid() && ret == (if n == null then -522 else if !isInit then -502 else 0)
      ensures devs == if ret == 0 then old(devs) + [n] else old(devs)
      ensures old(CursorOk()) ==> CursorOk()
    {
      if n == null {
        return -EINVAL;
      }
      if !isInit {
        return -ENOINIT;
      }
      nDev := nDev + 1;
      AddTail(n, head, devs);
      devs := devs + [n];
      return 0;
    }

    /** `usb_lib_dev_del`, for a device that is registered. A cursor on it is left behind. */
    method DevDel(n: Node, ghost k: nat) returns (ret: int)
      requires Valid() && k < |devs| && n == devs[k]
      modifies this`nDev, this`devs, this`pos, head, devs
      ensures Valid() && ret == 0 && devs == Without(old(devs), k) && n.Unlinked()
      ensures pos == if old(pos) > k then old(pos) - 1 else old(pos)
      ensures old(CursorOk()) && loca != n ==> CursorOk()
    {
      nDev := nDev - 1;
      Del(n, head, devs, k);
      if pos <= |devs| { RemoveAt(head, devs, k, if pos > k then pos - 1 else pos); }
      devs := Without(devs, k);
      if pos > k { pos := pos - 1; }
      return 0;
    }

    /** `usb_lib_dev_traverse_reset`. */
    method TraverseReset()
      requires Valid() && isInit
      modifies this`loca, this`pos
      ensures Valid() && CursorOk() && pos == 0
    {
      loca, pos := head, 0;
    }

    /** `usb_lib_dev_traverse`: the next device, or the end. */
    method Traverse() returns (ret: int, n: Node?)
      requires Valid() && CursorOk()
      modifies this`loca, this`pos
      ensures Valid() && CursorOk()
      ensures !isInit ==> ret == -502 && pos == old(pos)
      ensures isInit && old(pos) < |devs| ==> ret == 0 && n == devs[old(pos)] && pos == old(pos) + 1
      ensures isInit && old(pos) == |devs| ==> ret == -504 && pos == old(pos)
    {
      n := null;
      if !isInit {
        return -ENOINIT, n;
      }
      assert Linked(At(head, devs, pos), At(head, devs, pos + 1));
      var e := IsEmpty(head, devs);
      if !e {
        if loca.next == head {
          return -END, n;
        }
        n := loca.next;
        loca := loca.next;
        pos := pos + 1;
        return 0, n;
      }
      return -END, n;
    }

    /** The traversal protocol: after a reset, asking until the end yields every registered
        device once, in the order of registration. */
    method VisitAll() returns (visited: seq<Node>)
      requires Valid() && isInit
      modifies this`loca, this`pos
      ensures Valid() && visited == devs
    {
      TraverseReset();
      visited := [];
      var ret, n := Traverse();
      while ret == 0
        invariant Valid() && CursorOk() && devs == old(devs) && isInit
        invariant ret == 0 ==> n != null && |visited| + 1 == pos && visited + [n] == devs[..pos]
        invariant ret != 0 ==> |visited| == pos == |devs| && visited == devs[..pos]
        decreases |devs| - |visited|, if ret == 0 then 1 else 0
      {
        visited := visited + [n];
        ret, n := Traverse();
      }
    }
  }
}
