/** The `compatible_devices` table: admin-verified edges from a device to
    the devices that share its screen guard, with
    `PRIMARY KEY(device_brand, device_model, compatible_brand, compatible_model)`.
    Kept as a sequence without duplicates in insertion order, which is the
    order the model's queries read it in (the database engine may read it in
    primary-key order instead). */
module Links {
  import opened Devices

  datatype Link = Link(device: DeviceKey, compatible: DeviceKey)

  ghost predicate NoDuplicates(links: seq<Link>)
  {
    forall i, j :: 0 <= i < j < |links| ==> links[i] != links[j]
  }

  /** `INSERT OR IGNORE` of one edge: an edge already present is skipped. */
  function InsertLink(links: seq<Link>, l: Link): (r: seq<Link>)
    ensures forall x :: x in r <==> x in links || x == l
  {
    if l in links then links else links + [l]
  }

  /** `add_compatible_devices` (services.py:261-269): one insert-or-ignore
      per listed device, in list order. */
  function InsertAll(links: seq<Link>, device: DeviceKey, compatible: seq<DeviceKey>): seq<Link>
    decreases |compatible|
  {
    if compatible == [] then links
    else InsertLink(InsertAll(links, device, compatible[..|compatible| - 1]), Link(device, compatible[|compatible| - 1]))
  }

  /** The table after the inserts is the union of the old table and the new
      edges: nothing is lost and nothing else is added. */
  lemma {:induction false} InsertAllMembers(links: seq<Link>, device: DeviceKey, compatible: seq<DeviceKey>)
    ensures forall l :: l in InsertAll(links, device, compatible) <==>
      l in links || (l.device == device && l.compatible in compatible)
    decreases |compatible|
  {
    if compatible != [] {
      var init := compatible[..|compatible| - 1];
      InsertAllMembers(links, device, init);
      assert compatible == init + [compatible[|compatible| - 1]];
    }
  }

  /** Insert-or-ignore never creates a duplicate edge. */
  lemma {:induction false} InsertAllNoDuplicates(links: seq<Link>, device: DeviceKey, compatible: seq<DeviceKey>)
    requires NoDuplicates(links)
    ensures NoDuplicates(InsertAll(links, device, compatible))
    decreases |compatible|
  {
    if compatible != [] {
      InsertAllNoDuplicates(links, device, compatible[..|compatible| - 1]);
    }
  }

  /** Every edge already present is ignored, so the old table is kept as a
      prefix. */
  lemma {:induction false} InsertAllExtends(links: seq<Link>, device: DeviceKey, compatible: seq<DeviceKey>)
    ensures |links| <= |InsertAll(links, device, compatible)|
    ensures InsertAll(links, device, compatible)[..|links|] == links
    decreases |compatible|
  {
    if compatible != [] {
      InsertAllExtends(links, device, compatible[..|compatible| - 1]);
    }
  }

  /** Inserting edges that are all present already changes nothing. */
  lemma {:induction false} InsertAllPresent(links: seq<Link>, device: DeviceKey, compatible: seq<DeviceKey>)
    requires forall c :: c in compatible ==> Link(device, c) in links
    ensures InsertAll(links, device, compatible) == links
    decreases |compatible|
  {
    if compatible != [] {
      InsertAllPresent(links, device, compatible[..|compatible| - 1]);
    }
  }

  /** Adding the same list twice is adding it once. */
  lemma InsertAllIdempotent(links: seq<Link>, device: DeviceKey, compatible: seq<DeviceKey>)
    ensures InsertAll(InsertAll(links, device, compatible), device, compatible) == InsertAll(links, device, compatible)
  {
    InsertAllMembers(links, device, compatible);
    InsertAllPresent(InsertAll(links, device, compatible), device, compatible);
  }

  /** `get_compatible_devices` (services.py:271-277): the targets of the
      device's edges, in table order. */
  function LinkTargets(links: seq<Link>, device: DeviceKey): (targets: seq<DeviceKey>)
    ensures forall t :: t in targets <==> Link(device, t) in links
    ensures |targets| <= |links|
  {
    if links == [] then []
    else
      var rest := LinkTargets(links[1..], device);
      assert forall l :: l in links <==> l == links[0] || l in links[1..];
      if links[0].device == device then [links[0].compatible] + rest else rest
  }

  /** Without duplicate edges a device's targets are distinct. */
  lemma {:induction false} LinkTargetsDistinct(links: seq<Link>, device: DeviceKey)
    requires NoDuplicates(links)
    ensures forall i, j :: 0 <= i < j < |LinkTargets(links, device)| ==>
      LinkTargets(links, device)[i] != LinkTargets(links, device)[j]
    decreases |links|
  {
    if links != [] {
      assert NoDuplicates(links[1..]);
      LinkTargetsDistinct(links[1..], device);
      if links[0].device == device {
        assert Link(device, links[0].compatible) !in links[1..];
      }
    }
  }
}
