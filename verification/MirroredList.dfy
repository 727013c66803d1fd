/**
  The circular doubly linked list whose nodes carry two sets of links: pointers to host nodes, and the
  addresses at which the device sees the same nodes.
*/
module MirroredList {
  /** An address in device memory; it is stored, never followed. */
  type DevicePtr = nat

  class ListCommon {
    var nextHost: ListCommon?
    var preHost: ListCommon?
    var nextDevice: DevicePtr
    var preDevice: DevicePtr

    constructor () {
      nextHost, preHost, nextDevice, preDevice := null, null, 0, 0;
    }
  }

  /** b follows a, in both directions and in both address spaces. */
  ghost predicate Linked(a: ListCommon, b: ListCommon, device: map<ListCommon, DevicePtr>)
    requires a in device && b in device
    reads a, b
  {
    a.nextHost == b && b.preHost == a && a.nextDevice == device[b] && b.preDevice == device[a]
  }

  /** The nodes `ring`, head first, form the circular list, and `device` gives their device images. */
  ghost predicate Circular(ring: seq<ListCommon>, device: map<ListCommon, DevicePtr>)
    reads ring
  {
    && ring != []
    && (forall i | 0 <= i < |ring| :: ring[i] in device)
    && (forall i, j | 0 <= i < j < |ring| :: ring[i] != ring[j])
    && (forall i | 0 <= i < |ring| - 1 :: Linked(ring[i], ring[i + 1], device))
    && Linked(ring[|ring| - 1], ring[0], device)
  }

  method ListCommonInit(deviceList: DevicePtr, hostList: ListCommon?)
    modifies hostList
    ensures hostList != null ==> Circular([hostList], map[hostList := deviceList])
  {
    if hostList == null {
      return;
    }
    hostList.nextHost := hostList;
    hostList.preHost := hostList;
    hostList.nextDevice := deviceList;
    hostList.preDevice := deviceList;
  }

  /** Adding a fresh node puts it right after the head, so the newest node comes first.  `nodes` are the
      nodes already in the list. */
  method ListCommonAddHead(newDevice: DevicePtr, newHost: ListCommon?, headHost: ListCommon?, headDevice: DevicePtr,
                           ghost nodes: seq<ListCommon>, ghost device: map<ListCommon, DevicePtr>)
    requires headHost != null ==> Circular([headHost] + nodes, device) && device[headHost] == headDevice
    requires newHost != null && headHost != null ==> newHost !in [headHost] + nodes
    modifies newHost, headHost, nodes
    ensures newHost == null || headHost == null ==>
              && (newHost != null ==> unchanged(newHost)) && (headHost != null ==> unchanged(headHost))
              && unchanged(nodes)
    ensures newHost != null && headHost != null ==>
              Circular([headHost] + ([newHost] + nodes), device[newHost := newDevice])
  {
    if newHost == null || headHost == null {
      return;
    }
    ghost var ring := [headHost] + nodes;
    assert ring[0] == headHost && ring[|ring| - 1].nextHost == headHost;
    assert nodes != [] ==> Linked(ring[0], ring[1], device);
    var first := headHost.nextHost;
    assert first == if nodes == [] then headHost else nodes[0];
    first.preHost := newHost;
    newHost.nextHost := headHost.nextHost;
    newHost.preHost := headHost;
    headHost.nextHost := newHost;

    first.preDevice := newDevice;
    newHost.nextDevice := headHost.nextDevice;
    newHost.preDevice := headDevice;
    headHost.nextDevice := newDevice;

    ghost var ring' := [headHost] + ([newHost] + nodes);
    ghost var device' := device[newHost := newDevice];
    assert forall i | 2 <= i < |ring'| :: ring'[i] == ring[i - 1];
    forall i | 0 <= i < |ring'| - 1 ensures Linked(ring'[i], ring'[i + 1], device') {
      if i >= 2 {
        assert old(Linked(ring[i - 1], ring[i], device));
      }
    }
  }

  ghost predicate Distinct(head: ListCommon, added: seq<ListCommon>) {
    head !in added && forall i, j | 0 <= i < j < |added| :: added[i] != added[j]
  }

  /** The device images after the first k nodes have been added. */
  ghost function Images(head: ListCommon, headDevice: DevicePtr, added: seq<ListCommon>, images: seq<DevicePtr>,
                        k: nat): (device: map<ListCommon, DevicePtr>)
    requires k <= |added| == |images| && Distinct(head, added)
    ensures head in device && device[head] == headDevice
    ensures forall i | 0 <= i < k :: added[i] in device && device[added[i]] == images[i]
  {
    if k == 0 then map[head := headDevice]
    else Images(head, headDevice, added, images, k - 1)[added[k - 1] := images[k - 1]]
  }

  /** A whole run: initialises the head and adds distinct fresh nodes one by one. */
  method InitAndAdd(head: ListCommon, headDevice: DevicePtr, added: seq<ListCommon>, images: seq<DevicePtr>)
    requires |added| == |images| && Distinct(head, added)
    modifies head, added
    ensures Circular([head] + Reversed(added), Images(head, headDevice, added, images, |added|))
  {
    ListCommonInit(headDevice, head);
    assert [head] + Reversed(added[..0]) == [head];
    for k := 0 to |added|
      invariant Circular([head] + Reversed(added[..k]), Images(head, headDevice, added, images, k))
    {
      ghost var nodes := Reversed(added[..k]);
      ReversedAt(added[..k]);
      assert forall i | 0 <= i < k :: nodes[i] == added[k - 1 - i];
      ListCommonAddHead(images[k], added[k], head, headDevice, nodes, Images(head, headDevice, added, images, k));
      ReversedExtends(added, k);
    }
    assert added[..|added|] == added;
  }

  lemma ReversedExtends<T>(s: seq<T>, k: nat)
    requires k < |s|
    ensures Reversed(s[..k + 1]) == [s[k]] + Reversed(s[..k])
  {
    assert s[..k + 1][..k] == s[..k];
  }

  lemma {:induction false} ReversedAt<T>(s: seq<T>)
    ensures forall i | 0 <= i < |s| :: Reversed(s)[i] == s[|s| - 1 - i]
  {
    if s != [] {
      ReversedAt(s[..|s| - 1]);
    }
  }

  /** The host nodes seen when following nextHost k times from `from`. */
  ghost function Forward(from: ListCommon, k: nat, ring: seq<ListCommon>): seq<ListCommon>
    reads ring, from
  {
    if k == 0 || from.nextHost == null || from.nextHost !in ring then []
    else [from.nextHost] + Forward(from.nextHost, k - 1, ring)
  }

  /** The host nodes seen when following preHost k times. */
  ghost function Backward(from: ListCommon, k: nat, ring: seq<ListCommon>): seq<ListCommon>
    reads ring, from
  {
    if k == 0 || from.preHost == null || from.preHost !in ring then []
    else [from.preHost] + Backward(from.preHost, k - 1, ring)
  }

  ghost function Reversed<T>(s: seq<T>): (r: seq<T>)
    ensures |r| == |s|
  {
    if s == [] then [] else [s[|s| - 1]] + Reversed(s[..|s| - 1])
  }

  lemma {:induction false} ForwardFrom(ring: seq<ListCommon>, device: map<ListCommon, DevicePtr>, i: nat)
    requires Circular(ring, device) && i < |ring|
    ensures Forward(ring[i], |ring| - i, ring) == ring[i + 1..] + [ring[0]]
    decreases |ring| - i
  {
    if i < |ring| - 1 {
      assert Linked(ring[i], ring[i + 1], device);
      ForwardFrom(ring, device, i + 1);
    } else {
      assert Forward(ring[0], 0, ring) == [];
    }
  }

  lemma {:induction false} BackwardFrom(ring: seq<ListCommon>, device: map<ListCommon, DevicePtr>, i: nat)
    requires Circular(ring, device) && i < |ring|
    ensures Backward(ring[i], i, ring) == Reversed(ring[..i])
  {
    if i > 0 {
      assert Linked(ring[i - 1], ring[i], device);
      BackwardFrom(ring, device, i - 1);
      assert ring[..i][..i - 1] == ring[..i - 1];
    }
  }

  /** A full walk forward visits the nodes newest first and ends at the head; a full walk backward visits
      them in the reverse order and ends at the head. */
  lemma WalksAreMirrored(head: ListCommon, nodes: seq<ListCommon>, device: map<ListCommon, DevicePtr>)
    requires Circular([head] + nodes, device)
    ensures Forward(head, |nodes| + 1, [head] + nodes) == nodes + [head]
    ensures Backward(head, |nodes| + 1, [head] + nodes) == Reversed(nodes) + [head]
  {
    var ring := [head] + nodes;
    ForwardFrom(ring, device, 0);
    BackFromHead(ring, device);
    assert ring[1..] == nodes;
  }

  lemma BackFromHead(ring: seq<ListCommon>, device: map<ListCommon, DevicePtr>)
    requires Circular(ring, device)
    ensures Backward(ring[0], |ring|, ring) == Reversed(ring[1..]) + [ring[0]]
  {
    var last := |ring| - 1;
    BackwardFrom(ring, device, last);
    assert Backward(ring[0], |ring|, ring) == [ring[last]] + Backward(ring[last], last, ring);
    assert ring == ring[..last] + [ring[last]];
    ReversedFirstLast(ring);
  }

  lemma {:induction false} ReversedFirstLast<T>(s: seq<T>)
    requires s != []
    ensures Reversed(s) == Reversed(s[1..]) + [s[0]]
  {
    if |s| > 1 {
      ReversedFirstLast(s[..|s| - 1]);
      assert s[..|s| - 1][1..] == s[1..][..|s| - 2];
    }
  }

  /** Every device link is the device image of the matching host link. */
  lemma DeviceLinksMirrorHostLinks(ring: seq<ListCommon>, device: map<ListCommon, DevicePtr>, i: nat)
    requires Circular(ring, device) && i < |ring|
    ensures var n := ring[i];
            && n.nextHost in device && n.nextDevice == device[n.nextHost]
            && n.preHost in device && n.preDevice == device[n.preHost]
  {
    if i < |ring| - 1 {
      assert Linked(ring[i], ring[i + 1], device);
    }
    if i > 0 {
      assert Linked(ring[i - 1], ring[i], device);
    }
  }
}
