/** The mtdparts and chpart commands on the global table. */
module MtdCommands {
  import opened MtdTypes
  import opened MtdBlocks
  import opened MtdLists
  import opened MtdText
  import opened MtdRoundTrip
  import opened MtdTable
  import opened MtdPrint
  import opened MtdIO
  import opened Options

  const MTDPARTS_MAXLEN: nat := 1024

  /** u16 arithmetic. */
  function Word16(x: nat): nat { x % 0x1_0000 }

  lemma WordAdd(a: nat, b: nat)
    ensures Word16(Word16(a) + b) == Word16(a + b)
  {
  }

  lemma WordZero()
    ensures Word16(0) == 0
  {
  }

  /** What a user can do: the commands, and setting the variables they go by. */
  datatype Command =
    | List
    | Add(description: string)
    | Del(partId: string)
    | DelAll
    | ChPart(partId: string)
    | SetParts(text: Option<string>)
    | SetPartition(text: Option<string>)
    | Reboot

  class Table {
    const ids: seq<MtdId>
    var devices: seq<Device>
    /** current_mtd_dev, named by the id of the device it points to. */
    var current: Option<MtdId>
    /** current_mtd_partnum, an 8-bit value. */
    var curPart: nat
    // environment variables
    var mtdDevNum: Option<nat>
    var mtdDevName: Option<string>
    var partition: Option<string>
    var mtdparts: Option<string>
    // the copies last_parts and last_partition, "" when they are empty
    var lastParts: string
    var lastPartition: string

    ghost predicate Valid()
      reads `devices, `curPart
    {
      OkIds(ids) && OkDevices(ids, devices) && curPart < 256
    }

    /** Where the current device stands in the list. */
    function Here(): Option<nat>
      reads `devices, `current
    {
      if current.None? then None else FindDevice(devices, current.value.kind, current.value.num)
    }

    /** The current device is on the list. */
    predicate Pointed()
      reads `devices, `current
    {
      current.Some? ==> Here().Some? && devices[Here().value].id == current.value
    }

    /** NULL exactly when there are no devices, otherwise a partition that exists. */
    predicate CurrentOk()
      reads `devices, `current, `curPart
    {
      && (current.None? <==> devices == [])
      && Pointed()
      && (current.Some? ==> curPart < |devices[Here().value].parts|)
    }

    function Current(): Part
      requires CurrentOk() && current.Some?
      reads `devices, `current, `curPart
    {
      devices[Here().value].parts[curPart]
    }

    /** The current partition is the one last written to the environment. */
    predicate Indexed()
      reads `devices, `current, `curPart, `mtdDevNum, `mtdDevName, `lastPartition
    {
      if current.None? then lastPartition == ""
      else
        var i := Here();
        && i.Some?
        && mtdDevNum == Some(Word16(Before(devices, i.value) + curPart))
        && mtdDevName == (if curPart < |devices[i.value].parts| then Some(devices[i.value].parts[curPart].name)
                          else None)
        && lastPartition == PartitionText(current.value.kind, current.value.num, curPart)
    }

    /** The variable is the text that was parsed or printed last. */
    predicate TextKept()
      reads `mtdparts, `lastParts
    {
      if mtdparts.None? then lastParts == "" else mtdparts.value == lastParts != ""
    }

    predicate PartitionKept()
      reads `partition, `lastPartition
    {
      partition == if lastPartition == "" then None else Some(lastPartition)
    }

    /** Nothing has been set behind the back of the commands. */
    predicate InStep()
      reads `mtdparts, `lastParts, `partition, `lastPartition
    {
      TextKept() && PartitionKept()
    }

    constructor (ids: seq<MtdId>)
      requires OkIds(ids)
      ensures Valid() && CurrentOk() && Indexed() && InStep() && devices == [] && mtdparts == None && this.ids == ids
    {
      this.ids := ids;
      devices, current, curPart := [], None, 0;
      mtdDevNum, mtdDevName, partition, mtdparts := None, None, None, None;
      lastParts, lastPartition := "", "";
    }

    method MtdPartInfo(d: nat, n: nat) returns (r: Option<nat>)
      requires d < |devices| && devices[d].numParts == |devices[d].parts|
      ensures r == if n < |devices[d].parts| then Some(n) else None
    {
      if n >= devices[d].numParts {
        return None;
      }
      var num := 0;
      while num < |devices[d].parts|
        invariant num <= n
      {
        if n == num {
          return Some(num);
        }
        num := num + 1;
      }
      return None;
    }

    lemma CountIsLength(i: nat)
      requires Valid() && i < |devices|
      ensures devices[i].numParts == |devices[i].parts| > 0
    {
      assert devices[i] in devices;
      assert OkDevice(ids, devices[i]);
    }

    /** Counts partitions up to the current one, in 16 bits. */
    method IndexPartitions()
      requires Valid() && Pointed()
      modifies `mtdDevNum, `mtdDevName
      ensures current.None? ==> mtdDevNum == None && mtdDevName == None
      ensures current.Some? ==>
                && mtdDevNum == Some(Word16(Before(devices, Here().value) + curPart))
                && mtdDevName == (if curPart < |devices[Here().value].parts|
                                  then Some(devices[Here().value].parts[curPart].name) else None)
    {
      hide OkIds, OkDevices, Word16, FindDevice;
      assert Before(devices, 0) == 0 == Word16(0) by { WordZero(); }
      if current.Some? {
        ghost var here := Here().value;
        var n, i := 0, 0;
        while i < |devices| && !SameKey(devices[i].id, current.value)
          invariant i <= here && n == Word16(Before(devices, i))
        {
          CountIsLength(i);
          FoundFirst(devices, current.value.kind, current.value.num, i);
          WordAdd(Before(devices, i), devices[i].numParts);
          n := Word16(n + devices[i].numParts);
          i := i + 1;
        }
        FoundFirst(devices, current.value.kind, current.value.num, i);
        CountIsLength(i);
        WordAdd(Before(devices, i), curPart);
        n := Word16(n + curPart);
        mtdDevNum := Some(n);
        var part := MtdPartInfo(i, curPart);
        mtdDevName := if part.Some? then Some(devices[i].parts[part.value].name) else None;
      } else {
        mtdDevNum, mtdDevName := None, None;
      }
    }

    /** Writes the current partition to the environment and keeps a copy. */
    method CurrentSave()
      requires Valid() && Pointed()
      modifies `mtdDevNum, `mtdDevName, `partition, `lastPartition
      ensures Indexed() && PartitionKept()
      ensures current.None? ==> mtdDevNum == None && mtdDevName == None
    {
      if current.Some? {
        SomeText(current.value.kind, current.value.num, curPart);
        lastPartition := PartitionText(current.value.kind, current.value.num, curPart);
        partition := Some(lastPartition);
      } else {
        partition := None;
        lastPartition := "";
      }
      IndexPartitions();
    }

    lemma SomeText(kind: DevType, num: nat, part: nat)
      ensures PartitionText(kind, num, part) != ""
    {
    }

    lemma HereIs(d: nat)
      requires Valid() && Pointed() && d < |devices| && current.Some?
      ensures SameKey(devices[d].id, current.value) <==> Here() == Some(d)
    {
    }

    /** Linking a partition into a device's list; num_parts goes up with it. */
    method Insert(d: nat, k: nat, part: Part)
      requires Valid() && Pointed() && d < |devices|
      requires Fits(devices[d].id, part) && NameOk(part)
      requires k == InsertPos(devices[d].parts, part.offset) && InsertSorted(devices[d].parts, part).Some?
      modifies `devices
      ensures Valid() && Pointed() && Here() == old(Here())
      ensures devices == old(devices)[d := Device(old(devices[d].id), InsertSorted(old(devices[d].parts), part).value,
                                                  |old(devices[d].parts)| + 1)]
    {
      var dev := devices[d];
      CountIsLength(d);
      Replaced(ids, devices, d, part);
      devices := devices[d := dev.(parts := InsertAt(dev.parts, k, part), numParts := dev.numParts + 1)];
    }

    /** Inserting at a slot: the current number moves when the partition now behind the
        new one does not stand behind the current one. */
    method Link(d: nat, k: nat, part: Part, curr: Option<Part>)
      requires Valid() && Pointed() && Indexed() && d < |devices|
      requires Fits(devices[d].id, part) && NameOk(part)
      requires k == InsertPos(devices[d].parts, part.offset) && InsertSorted(devices[d].parts, part).Some?
      requires Here() == Some(d) ==> curPart < |devices[d].parts|
      requires curr == if Here() == Some(d) then Some(devices[d].parts[curPart]) else None
      modifies `devices, `current, `curPart, `mtdDevNum, `mtdDevName, `partition, `lastPartition
      ensures Valid() && Pointed() && Indexed() && current == old(current)
      ensures old(PartitionKept()) ==> PartitionKept()
      ensures devices == old(devices)[d := Device(old(devices[d].id), InsertSorted(old(devices[d].parts), part).value,
                                                  |old(devices[d].parts)| + 1)]
      ensures curPart == if old(Here()) == Some(d) && Shifts(old(devices[d].parts), k, old(curPart))
                         then (old(curPart) + 1) % 256 else old(curPart)
    {
      hide OkIds, OkDevices, InsertPos, FindDevice, Before, Fits, NameOk, SameKey, Word16, InsertSorted;
      var behind := if k < |devices[d].parts| then Some(devices[d].parts[k]) else None;
      Insert(d, k, part);
      if behind.Some? && curr.Some? && behind.value.offset <= curr.value.offset {
        curPart := (curPart + 1) % 256;
        CurrentSave();
      } else {
        IndexPartitions();
      }
    }

    /** part_sort_add for a device on the list; moves the current number along. */
    method PartSortAdd(d: nat, part: Part) returns (ok: bool)
      requires Valid() && Pointed() && Indexed() && d < |devices|
      requires Fits(devices[d].id, part) && NameOk(part)
      requires Here() == Some(d) ==> curPart < |devices[d].parts|
      modifies `devices, `current, `curPart, `mtdDevNum, `mtdDevName, `partition, `lastPartition
      ensures Valid() && Pointed() && Indexed() && current == old(current)
      ensures old(PartitionKept()) ==> PartitionKept()
      ensures !ok <==> InsertSorted(old(devices[d].parts), part) == None
      ensures !ok ==> devices == old(devices) && curPart == old(curPart)
      ensures ok ==>
        var ps := old(devices[d].parts);
        && devices == old(devices)[d := Device(old(devices[d].id), InsertSorted(ps, part).value, |ps| + 1)]
        && curPart == if old(Here()) == Some(d) && Shifts(ps, InsertPos(ps, part.offset), old(curPart))
                      then (old(curPart) + 1) % 256 else old(curPart)
    {
      hide OkIds, OkDevices, InsertPos, InsertSorted, FindDevice, Before, Fits, NameOk, SameKey, Word16;
      var dev := devices[d];
      CountIsLength(d);
      var curr: Option<Part> := None;
      if current.Some? { HereIs(d); }
      if current.Some? && SameKey(dev.id, current.value) {
        var at := MtdPartInfo(d, curPart);
        curr := Some(dev.parts[at.value]);
      }
      var slot := FindSlot(dev.parts, part);
      if slot.None? { return false; }
      Link(d, slot.value, part, curr);
      return true;
    }

    /** The loop of part_sort_add over the list: where the new partition goes, unless there is one
        at 0 already and it is to go there too. */
    method FindSlot(parts: seq<Part>, part: Part) returns (slot: Option<nat>)
      ensures slot.None? <==> InsertSorted(parts, part) == None
      ensures slot.Some? ==> slot.value == InsertPos(parts, part.offset)
    {
      hide InsertPos;
      var k := 0;
      while k < |parts|
        invariant k <= |parts|
        invariant forall j :: 0 <= j < k ==> parts[j].offset < part.offset
        invariant k > 0 ==> part.offset != 0
      {
        if part.offset == parts[k].offset && parts[k].offset == 0 {
          InsertPosIs(parts, part.offset, k);
          return None;
        }
        if part.offset <= parts[k].offset {
          break;
        }
        k := k + 1;
      }
      InsertPosIs(parts, part.offset, k);
      return Some(k);
    }

    /** part_add: validate, then link. */
    method PartAdd(d: nat, part: Part) returns (ok: bool)
      requires Valid() && CurrentOk() && Indexed() && d < |devices| && NameOk(part)
      modifies `devices, `current, `curPart, `mtdDevNum, `mtdDevName, `partition, `lastPartition
      ensures Valid() && Pointed() && Indexed()
      ensures old(PartitionKept()) ==> PartitionKept()
      ensures ok <==> Fits(old(devices[d].id), Resolve(old(devices[d].id), part))
                      && InsertSorted(old(devices[d].parts), Resolve(old(devices[d].id), part)).Some?
      ensures !ok ==> devices == old(devices) && curPart == old(curPart) && current == old(current)
      ensures ok ==>
        devices == old(devices)[d := Device(old(devices[d].id),
                                            InsertSorted(old(devices[d].parts),
                                                         Resolve(old(devices[d].id), part)).value,
                                            |old(devices[d].parts)| + 1)]
      ensures old(|devices[d].parts|) <= 255 && old(current.Some?) ==> CurrentOk() && Current() == old(Current())
    {
      hide Fits, WholeBlocks, InsertSorted, InsertPos, FindDevice, Before, Sorted, OneAtZero, AllFit;
      IdsSane(d);
      ghost var devs, cur := devices, curPart;
      var q;
      ok, q := PartValidate(devices[d].id, part);
      if ok {
        ResolvedName(devices[d].id, part);
        ok := PartSortAdd(d, q);
        if ok && old(|devices[d].parts|) <= 255 && old(current.Some?) {
          InsertKeepsNamed(ids, devs, d, q, current.value, cur);
        }
      }
    }

    lemma ResolvedName(id: MtdId, part: Part)
      ensures NameOk(part) ==> NameOk(Resolve(id, part))
    {
    }

    lemma IdsSane(d: nat)
      requires Valid() && d < |devices|
      ensures Sane(devices[d].id.geometry) && devices[d].id in ids
    {
      assert devices[d] in devices;
      assert OkDevice(ids, devices[d]);
    }

    /** device_del: the list without device d; the first device becomes current when d was. */
    method DeviceDel(d: nat)
      requires Valid() && CurrentOk() && d < |devices|
      modifies `devices, `current, `curPart, `mtdDevNum, `mtdDevName, `partition, `lastPartition
      ensures Valid() && CurrentOk() && (old(Indexed()) ==> Indexed())
      ensures old(PartitionKept()) ==> PartitionKept()
      ensures devices == old(devices)[..d] + old(devices)[d + 1..]
      ensures old(Here()) != Some(d) ==> current == old(current) && Current() == old(Current())
      ensures old(Here()) == Some(d) && devices != [] ==> Here() == Some(0) && curPart == 0
      ensures devices == [] ==> mtdDevNum == None && mtdDevName == None
    {
      hide OkIds, OkDevices, FindDevice, Before, Word16, SameKey;
      var gone := devices[d].id;
      HereIs(d);
      RemovedOk(ids, devices, d, current.value);
      CountIsLength(0);
      devices := devices[..d] + devices[d + 1..];
      if SameKey(gone, current.value) {
        if devices == [] {
          current := None;
        } else {
          FoundAt(ids, devices, 0);
          CountIsLength(0);
          current := Some(devices[0].id);
          curPart := 0;
        }
        CurrentSave();
      } else {
        IndexPartitions();
      }
    }

    /** part_del compares offsets to decide whether the current number moves down. */
    method PartDel(d: nat, k: nat)
      requires Valid() && CurrentOk() && Indexed() && d < |devices| && k < |devices[d].parts|
      modifies `devices, `current, `curPart, `mtdDevNum, `mtdDevName, `partition, `lastPartition
      ensures Valid() && Indexed()
      ensures old(PartitionKept()) ==> PartitionKept()
      ensures |old(devices[d].parts)| == 1 ==>
                && devices == old(devices)[..d] + old(devices)[d + 1..] && CurrentOk()
                && (old(Here()) != Some(d) ==> current == old(current) && Current() == old(Current()))
                && (old(Here()) == Some(d) && devices != [] ==> Here() == Some(0) && curPart == 0)
      ensures |old(devices[d].parts)| > 1 ==>
        var ps := old(devices[d].parts);
        && devices == old(devices)[d := Device(old(devices[d].id), RemoveAt(ps, k), |ps| - 1)]
        && current == old(current) && Here() == old(Here())
        && (Here() != Some(d) ==> CurrentOk() && Current() == old(Current()))
        && (Here() == Some(d) && k == old(curPart) ==> CurrentOk() && curPart == 0)
        && (Here() == Some(d) && k != old(curPart) ==>
              && (curPart == AfterRemoval(k, old(curPart))
                  <==> !(k > old(curPart) && ps[k].offset == ps[old(curPart)].offset))
              && (curPart == AfterRemoval(k, old(curPart)) ==> CurrentOk() && Current() == old(Current())))
    {
      hide OkIds, OkDevices, FindDevice, Before, Word16, SameKey, Sorted, PartitionText;
      var dev := devices[d];
      CountIsLength(d);
      HereIs(d);
      if dev.numParts == 1 {
        DeviceDel(d);
        return;
      }
      var save := false;
      if SameKey(dev.id, current.value) {
        var curr := MtdPartInfo(d, curPart);
        if curr.Some? {
          if curr.value == k {
            curPart := 0;
          } else {
            SortedDevice(d);
            RemoveIdentity(dev.parts, k, curPart);
            if dev.parts[k].offset <= dev.parts[curr.value].offset {
              curPart := (curPart + 255) % 256;
            }
          }
          save := true;
        }
      }
      RemovedPart(ids, devices, d, k);
      devices := devices[d := dev.(parts := RemoveAt(dev.parts, k), numParts := dev.numParts - 1)];
      if save {
        CurrentSave();
      } else {
        IndexPartitions();
      }
    }

    lemma SortedDevice(d: nat)
      requires Valid() && d < |devices|
      ensures Sorted(devices[d].parts)
    {
      assert OkDevice(ids, devices[d]) by { assert devices[d] in devices; }
    }

    /** device_add: behind all others; the first device ever becomes current. */
    method DeviceAdd(dev: Device)
      requires Valid() && CurrentOk() && Indexed() && OkDevice(ids, dev)
      requires FindDevice(devices, dev.id.kind, dev.id.num) == None
      modifies `devices, `current, `curPart, `mtdDevNum, `mtdDevName, `partition, `lastPartition
      ensures Valid() && CurrentOk() && Indexed()
      ensures old(PartitionKept()) ==> PartitionKept()
      ensures devices == old(devices) + [dev]
      ensures old(current.Some?) ==> current == old(current) && Current() == old(Current())
      ensures old(current.None?) ==> Current() == dev.parts[0]
    {
      hide OkIds, OkDevices, FindDevice, Before, Word16, SameKey;
      AddedOk(ids, devices, dev);
      ghost var devs := devices;
      var first := devices == [];
      if first {
        current := Some(dev.id);
        curPart := 0;
      } else {
        FoundBefore(ids, devices, dev, current.value);
      }
      devices := devices + [dev];
      FoundAt(ids, devices, |devices| - 1);
      if first {
        CurrentSave();
      } else {
        IndexPartitions();
      }
    }

    /** mtd_devices_init: forget everything. */
    method DevicesInit()
      requires Valid()
      modifies `devices, `current, `mtdDevNum, `mtdDevName, `partition, `lastPartition, `lastParts
      ensures Valid() && CurrentOk() && Indexed() && PartitionKept() && devices == [] && lastParts == ""
      ensures mtdDevNum == None && mtdDevName == None
    {
      lastParts := "";
      current := None;
      CurrentSave();
      devices := [];
    }

    // ---- keeping in step with the environment ----

    /** The search by name: device after device, partition after partition. */
    method FindNamed(name: string) returns (r: Option<Found>)
      ensures r == FirstNamed(devices, 0, name)
    {
      var d := 0;
      while d < |devices|
        invariant d <= |devices| && FirstNamed(devices, d, name) == FirstNamed(devices, 0, name)
      {
        var k, num := 0, 0;
        while k < |devices[d].parts|
          invariant k <= |devices[d].parts| && num == k % 256
          invariant forall j :: 0 <= j < k ==> devices[d].parts[j].name != name
        {
          if devices[d].parts[k].name == name {
            NameIndexIs(devices[d].parts, name, k);
            return Some(Found(d, k, num));
          }
          num := (num + 1) % 256;
          k := k + 1;
        }
        d := d + 1;
      }
      return None;
    }

    /** find_dev_and_part. */
    method FindDevAndPart(id: string) returns (r: Option<Found>)
      requires Valid()
      ensures r == Lookup(devices, id)
    {
      hide OkDevices, OkIds, MtdIdParse, FindDevice, FirstNamed, Strtoul;
      r := FindNamed(id);
      if r.Some? {
        return;
      }
      var head := MtdIdParse(id);
      if head.None? { return None; }
      var p := head.value.2;
      if CharAt(id, p) != ',' || p + 1 >= |id| { return None; }
      var (n, q) := Strtoul(id, p + 1);
      var num := n % 256;
      if CharAt(id, q) != NUL { return None; }
      var d := FindDevice(devices, head.value.0, head.value.1);
      if d.None? { return None; }
      CountIsLength(d.value);
      var k := MtdPartInfo(d.value, num);
      if k.None? { return None; }
      return Some(Found(d.value, k.value, num));
    }

    /** Prints the table into last_parts and the variable, or drops both when it is too long. The
        buffer is last_parts with the nine bytes behind it. */
    method GenerateSave() returns (ok: bool, extent: nat)
      requires Valid()
      modifies `mtdparts, `lastParts
      ensures ok <==> |DevsText(devices)| <= MTDPARTS_MAXLEN - 1
      ensures TextKept() && mtdparts == if ok && devices != [] then Some(TableText(devices)) else None
      ensures extent == Extent(devices, MTDPARTS_MAXLEN)
    {
      forall d | d in devices ensures d.numParts == |d.parts| {
        assert OkDevice(ids, d);
      }
      hide OkDevices, OkIds, DevsText, TableText, Extent;
      var buf := new char[MTDPARTS_MAXLEN + |PREFIX|](_ => NUL);
      ok, extent := GenerateMtdparts(devices, buf, MTDPARTS_MAXLEN);
      TableTextIs(devices);
      if ok {
        ExtentIs(devices, MTDPARTS_MAXLEN);
        assert devices != [] ==> buf[0] == buf[..|TableText(devices)|][0];
        lastParts := buf[..extent - 1];
        mtdparts := if buf[0] != NUL then Some(lastParts) else None;
      } else {
        lastParts := "";
        mtdparts := None;
      }
    }

    /** What mtdparts_init makes of the variable: its return code, and the devices. */
    ghost function Synced(): (int, seq<Device>)
      reads `mtdparts, `lastParts, `devices
    {
      if mtdparts.None? then (0, if lastParts != "" then [] else devices)
      else if |mtdparts.value| > MTDPARTS_MAXLEN - 1 then (1, devices)
      else if !Unread() then (0, devices)
      else
        var table := ParseTable(mtdparts.value, ids);
        if table.None? then (1, []) else (0, table.value)
    }

    /** The variable is not the text that was parsed or printed last. */
    predicate Unread()
      reads `mtdparts, `lastParts
    {
      mtdparts.Some? && (lastParts == "" || mtdparts.value != lastParts)
    }

    /** The partition that the variable asks for, when that is not the one saved last. */
    function Wanted(devs: seq<Device>, wish: Option<string>, last: string): (r: Option<Found>)
      ensures r.Some? ==> r.value.dev < |devs|
    {
      if wish.Some? && wish.value != "" && wish.value != last then Lookup(devs, wish.value) else None
    }

    /** The cursor goes to a partition that has been looked up. */
    method Choose(f: Found)
      requires Valid() && f.dev < |devices| && f.num < 256 && f.num < |devices[f.dev].parts|
      modifies `current, `curPart, `mtdDevNum, `mtdDevName, `partition, `lastPartition
      ensures Valid() && CurrentOk() && Indexed() && PartitionKept()
      ensures Here() == Some(f.dev) && curPart == f.num
    {
      hide OkIds, OkDevices, FindDevice, Before, Word16, PartitionText;
      FoundAt(ids, devices, f.dev);
      current, curPart := Some(devices[f.dev].id), f.num;
      CurrentSave();
    }

    /** parse_mtdparts, and the first partition as the current one. */
    method ParseParts() returns (rc: int)
      requires Valid() && mtdparts.Some?
      modifies `devices, `current, `curPart, `mtdDevNum, `mtdDevName, `partition, `lastPartition, `lastParts
      ensures Valid() && CurrentOk() && Indexed() && PartitionKept() && (rc == 0 || rc == 1)
      ensures (rc, devices) == var t := ParseTable(mtdparts.value, ids); if t.None? then (1, []) else (0, t.value)
      ensures rc == 0 ==> devices != [] && Here() == Some(0) && curPart == 0 && lastParts == mtdparts.value != ""
      ensures rc == 1 ==> lastParts == ""
    {
      hide OkIds, OkDevices, FindDevice, Before, Word16, ParseTable;
      DevicesInit();
      var parsed := ParseMtdparts(mtdparts.value, ids);
      if parsed.None? { return 1; }
      ParsedTableOk(mtdparts.value, ids);
      ParsedHasText(mtdparts.value, ids);
      devices := parsed.value;
      lastParts := mtdparts.value;
      CountIsLength(0);
      Choose(Found(0, 0, 0));
      return 0;
    }

    lemma ParsedHasText(text: string, ids: seq<MtdId>)
      ensures ParseTable(text, ids).Some? ==> text != ""
    {
    }

    /** mtdparts_init: every command starts with it. It refuses a text that is too long, parses one
        it has not seen, and goes to the partition that the variable names. */
    method Init() returns (rc: int)
      requires Valid() && CurrentOk() && Indexed()
      modifies `devices, `current, `curPart, `mtdDevNum, `mtdDevName, `partition, `lastPartition, `lastParts
      ensures Valid() && CurrentOk() && Indexed() && (rc == 0 || rc == 1)
      ensures (rc, devices) == old(Synced())
      ensures rc == 0 ==> TextKept()
      ensures rc == 0 && old(Unread()) ==> devices != []
      ensures rc == 0 && mtdparts.Some? ==>
        var first := if old(Unread()) then PartitionText(devices[0].id.kind, devices[0].id.num, 0)
          else old(lastPartition);
        var f := Wanted(devices, old(partition), first);
        if f.Some? then Here() == Some(f.value.dev) && curPart == f.value.num
        else if old(Unread()) then Here() == Some(0) && curPart == 0
        else current == old(current) && curPart == old(curPart)
      ensures old(InStep()) ==>
        devices == old(devices) && current == old(current) && curPart == old(curPart) && (rc == 0 ==> InStep())
    {
      hide OkIds, OkDevices, FindDevice, Before, Word16, ParseTable, PartitionText, Lookup;
      if mtdparts.Some? && |mtdparts.value| > MTDPARTS_MAXLEN - 1 { return 1; }
      var wish := if partition.Some? then partition.value else "";
      if Unread() {
        rc := ParseParts();
        if rc != 0 { return 1; }
        FirstText();
      }
      if mtdparts.None? {
        if lastParts != "" { DevicesInit(); }
        return 0;
      }
      if wish != "" && wish != lastPartition {
        var found := FindDevAndPart(wish);
        if found.Some? { FoundOk(wish); Choose(found.value); }
      } else if partition.None? {
        CurrentSave();
      }
      return 0;
    }

    lemma FirstText()
      requires Valid() && CurrentOk() && Indexed() && devices != [] && Here() == Some(0) && curPart == 0
      ensures lastPartition == PartitionText(devices[0].id.kind, devices[0].id.num, 0)
    {
    }

    lemma FoundOk(wish: string)
      requires Valid() && Lookup(devices, wish).Some?
      ensures var f := Lookup(devices, wish).value;
              f.dev < |devices| && f.num < 256 && f.num < |devices[f.dev].parts|
    {
      hide OkIds, OkDevices, FindDevice, FirstNamed, MtdIdParse, Strtoul;
    }

    // ---- commands ----

    /** mtdparts without arguments. */
    method CmdList() returns (rc: int)
      requires Valid() && CurrentOk() && Indexed()
      modifies this
      ensures Valid() && CurrentOk() && Indexed() && mtdparts == old(mtdparts)
      ensures (rc, devices) == old(Synced())
      ensures mtdparts.None? ==> rc == 0 && devices == if old(lastParts) == "" then old(devices) else []
      ensures mtdparts.Some? && |mtdparts.value| > 1023 ==> rc == 1 && devices == old(devices)
      ensures mtdparts.Some? && |mtdparts.value| <= 1023 ==>
                if mtdparts.value == old(lastParts) != "" then rc == 0 && devices == old(devices)
                else
                  var table := ParseTable(mtdparts.value, ids);
                  if table.Some? then rc == 0 && devices == table.value else rc == 1 && devices == []
      ensures old(InStep()) ==> current == old(current) && curPart == old(curPart)
    {
      hide OkIds, OkDevices, FindDevice, Before, Word16, ParseTable, PartitionText, Lookup;
      rc := Init();
    }

    /** What the next command makes of a table that has just been saved: it works on it when the
        text, prefix included, is short enough, and refuses it otherwise. */
    lemma SavedRuns()
      requires TextKept() && devices != [] && mtdparts == Some(TableText(devices))
      ensures Synced() == (if |DevsText(devices)| <= MTDPARTS_MAXLEN - 1 - |PREFIX| then 0 else 1, devices)
    {
      hide DevsText;
      TableTextIs(devices);
    }

    /** Adding what a description says, to a table that is in step. */
    method AddDescribed(description: string) returns (rc: int)
      requires Valid() && CurrentOk() && Indexed()
      modifies this
      ensures Valid() && Pointed() && Indexed() && (old(InStep()) ==> InStep()) && (rc == 0 || rc == 1)
      ensures (forall d :: d in old(devices) ==> |d.parts| <= 255) ==>
                CurrentOk() && (old(current.Some?) ==> current.Some? && Current() == old(Current()))
      ensures rc == 0 ==> devices != [] && mtdparts == Some(TableText(devices)) && TextKept()
      ensures devices == Added(ids, old(devices), description)
      ensures rc == 0 <==> WouldAdd(ids, old(devices), description) && |DevsText(devices)| <= MTDPARTS_MAXLEN - 1
    {
      hide OkIds, OkDevices, FindDevice, ParseDevice, OkDevice, DevsText, TableText, InsertSorted, Before, Word16,
        Resolve, Fits, Indexed, PartitionText, Extent;
      var parsed := DeviceParse(description, 0, ids, devices);
      if parsed.None? { return 1; }
      ParsedDeviceOk(description, 0, ids, devices);
      var dev := parsed.value.0;
      OkParts(dev);
      var have := FindDevice(devices, dev.id.kind, dev.id.num);
      if have.None? {
        DeviceAdd(dev);
      } else {
        assert devices[have.value] in devices;
        HaveCurrent();
        var ok := PartAdd(have.value, dev.parts[0]);
        if !ok { return 1; }
      }
      var saved, extent := GenerateSave();
      rc := if saved then 0 else 1;
    }

    /** mtdparts add, from the description it puts together. */
    method CmdAdd(description: string) returns (rc: int)
      requires Valid() && CurrentOk() && Indexed()
      modifies this
      ensures Valid() && Pointed() && Indexed()
      ensures var (bad, devs) := old(Synced());
              && (bad != 0 ==> rc == 1 && devices == devs && mtdparts == old(mtdparts))
              && (bad == 0 ==>
                    && devices == Added(ids, devs, description)
                    && (rc == 0 <==> WouldAdd(ids, devs, description) && |DevsText(devices)| <= MTDPARTS_MAXLEN - 1))
      ensures rc == 0 ==>
        && devices != [] && mtdparts == Some(TableText(devices))
        && Synced() == (if |DevsText(devices)| <= MTDPARTS_MAXLEN - 1 - |PREFIX| then 0 else 1, devices)
      ensures (forall d :: d in old(Synced()).1 ==> |d.parts| <= 255) ==> CurrentOk()
      ensures old(InStep()) && old(current.Some?) && (forall d :: d in old(devices) ==> |d.parts| <= 255) ==>
                current.Some? && CurrentOk() && Current() == old(Current())
    {
      hide OkIds, OkDevices, FindDevice, DevsText, TableText, Before, Word16, Indexed, Added, WouldAdd, Wanted,
        PartitionText;
      rc := Init();
      if rc != 0 { return 1; }
      rc := AddDescribed(description);
      if rc == 0 { SavedRuns(); }
    }

    lemma HaveCurrent()
      requires CurrentOk() && devices != []
      ensures current.Some?
    {
    }

    lemma OkParts(dev: Device)
      requires OkDevice(ids, dev)
      ensures dev.parts != [] && NameOk(dev.parts[0])
    {
      hide Fits;
      assert dev.parts[0] in dev.parts;
    }

    /** part_del of what has been found. */
    method Remove(f: Found)
      requires Valid() && CurrentOk() && Indexed() && f.dev < |devices| && f.part < |devices[f.dev].parts|
      modifies `devices, `current, `curPart, `mtdDevNum, `mtdDevName, `partition, `lastPartition
      ensures Valid() && Indexed() && (old(PartitionKept()) ==> PartitionKept())
      ensures devices == Deleted(old(devices), f.dev, f.part) && (Tame(old(devices)) ==> CurrentOk())
      ensures Itself(Some(f), old(Here()), old(curPart)) && devices != [] ==>
                && CurrentOk() && curPart == 0
                && if |devices| == |old(devices)| then current == old(current) else Here() == Some(0)
      ensures Another(Some(f), old(Here()), old(curPart)) && Tame(old(devices)) ==>
                CurrentOk() && current == old(current) && Current() == old(Current())
    {
      hide OkIds, OkDevices, FindDevice, Before, Word16, Indexed, Valid, PartitionText, Tame, PartitionKept;
      if Tame(devices) { TameDistinct(devices, f.dev); }
      PartDel(f.dev, f.part);
    }

    lemma TameDistinct(devs: seq<Device>, d: nat)
      requires Tame(devs) && d < |devs|
      ensures forall i, j :: 0 <= i < j < |devs[d].parts| ==> devs[d].parts[i].offset != devs[d].parts[j].offset
    {
      assert devs[d] in devs;
    }

    /** delete_partition, on a table that is in step. */
    method DeletePartition(id: string) returns (rc: int)
      requires Valid() && CurrentOk() && Indexed()
      modifies this
      ensures Valid() && Indexed() && (old(InStep()) ==> InStep())
      ensures Tame(old(devices)) ==> CurrentOk()
      ensures rc == 0 ==> TextKept() && mtdparts == if devices == [] then None else Some(TableText(devices))
      ensures var f := Lookup(old(devices), id);
              && (f.None? ==> rc == 1 && devices == old(devices) && mtdparts == old(mtdparts))
              && (f.Some? ==> devices == Deleted(old(devices), f.value.dev, f.value.part)
                              && (rc == 0 <==> |DevsText(devices)| <= MTDPARTS_MAXLEN - 1))
      ensures Itself(Lookup(old(devices), id), old(Here()), old(curPart)) && devices != [] ==>
                && CurrentOk() && curPart == 0
                && if |devices| == |old(devices)| then current == old(current) else Here() == Some(0)
      ensures Another(Lookup(old(devices), id), old(Here()), old(curPart)) && Tame(old(devices)) ==>
                CurrentOk() && current == old(current) && Current() == old(Current())
    {
      hide OkIds, OkDevices, FindDevice, DevsText, TableText, Before, Word16, Lookup, Indexed, Valid, PartitionText,
        Extent, Tame, TextKept, PartitionKept, Deleted, CurrentOk;
      var found := FindDevAndPart(id);
      if found.None? { return 1; }
      Remove(found.value);
      var saved, extent := GenerateSave();
      rc := if saved then 0 else 1;
    }

    /** mtdparts del. */
    method CmdDel(id: string) returns (rc: int)
      requires Valid() && CurrentOk() && Indexed()
      modifies this
      ensures Valid() && Indexed()
      ensures Tame(old(Synced()).1) ==> CurrentOk()
      ensures rc == 0 ==>
        && mtdparts == (if devices == [] then None else Some(TableText(devices)))
        && Synced() == (if |DevsText(devices)| <= MTDPARTS_MAXLEN - 1 - |PREFIX| then 0 else 1, devices)
      ensures var (bad, devs) := old(Synced());
              var f := Lookup(devs, id);
              && (bad != 0 || f.None? ==> rc == 1 && devices == devs && mtdparts == old(mtdparts))
              && (bad == 0 && f.Some? ==>
                    && devices == Deleted(devs, f.value.dev, f.value.part)
                    && (rc == 0 <==> |DevsText(devices)| <= MTDPARTS_MAXLEN - 1))
      ensures old(InStep()) && old(Synced()).0 == 0 ==>
                Itself(Lookup(old(devices), id), old(Here()), old(curPart)) && devices != [] ==>
                && CurrentOk() && curPart == 0
                && if |devices| == |old(devices)| then current == old(current) else Here() == Some(0)
      ensures old(InStep()) && old(Synced()).0 == 0 ==>
                Another(Lookup(old(devices), id), old(Here()), old(curPart)) && Tame(old(devices)) ==>
                CurrentOk() && current == old(current) && Current() == old(Current())
    {
      hide OkIds, OkDevices, FindDevice, DevsText, TableText, Before, Word16, Lookup, Indexed, Wanted, PartitionText,
        Deleted, Tame;
      rc := Init();
      if rc != 0 { return 1; }
      rc := DeletePartition(id);
      TableTextIs(devices);
      if rc == 0 && devices != [] { SavedRuns(); }
    }

    /** mtdparts delall. */
    method CmdDelAll()
      requires Valid() && CurrentOk() && Indexed()
      modifies this
      ensures Valid() && CurrentOk() && Indexed() && InStep() && devices == [] && mtdparts == None
      ensures mtdDevNum == None && mtdDevName == None
    {
      var rc := Init();
      mtdparts := None;
      DevicesInit();
    }

    /** chpart. */
    method CmdChPart(id: string) returns (rc: int)
      requires Valid() && CurrentOk() && Indexed()
      modifies this
      ensures Valid() && CurrentOk() && Indexed() && mtdparts == old(mtdparts)
      ensures var (bad, devs) := old(Synced());
              var f := Lookup(devs, id);
              && devices == devs
              && (rc == 0 <==> bad == 0 && f.Some?) && (rc == 0 || rc == 1)
              && (rc == 0 ==> Here() == Some(f.value.dev) && curPart == f.value.num && PartitionKept())
              && (rc == 1 && old(InStep()) ==> current == old(current) && curPart == old(curPart))
    {
      hide OkIds, OkDevices, FindDevice, Before, Word16, Lookup, Wanted, PartitionText;
      rc := Init();
      if rc != 0 { return 1; }
      var found := FindDevAndPart(id);
      if found.None? { return 1; }
      FoundOk(id);
      Choose(found.value);
      return 0;
    }

    /** setenv of a variable the commands go by. A partition text of 16 characters or more would
        not be terminated where it is copied to. */
    method SetParts(text: Option<string>)
      requires Valid() && CurrentOk() && Indexed()
      modifies `mtdparts
      ensures Valid() && CurrentOk() && Indexed() && mtdparts == text
    {
      mtdparts := text;
    }

    method SetPartition(text: Option<string>)
      requires Valid() && CurrentOk() && Indexed()
      modifies `partition
      ensures Valid() && CurrentOk() && Indexed() && partition == text
    {
      partition := text;
    }

    /** A new start with the saved environment: the lists and the copies are gone. */
    method Reset()
      requires Valid()
      modifies `devices, `current, `curPart, `lastParts, `lastPartition
      ensures Valid() && CurrentOk() && Indexed() && devices == [] && lastParts == "" && lastPartition == ""
    {
      devices, current, curPart := [], None, 0;
      lastParts, lastPartition := "", "";
    }

    // ---- over a restart, and over runs ----

    /** What a table in order is to printer and parser. */
    lemma TableIsGood()
      requires Valid()
      ensures GoodDevices(ids, devices) && UniqueKeys(devices) && Good(devices)
    {
      hide Fits, NameOk, Sorted, OneAtZero;
      forall k | 0 <= k < |devices| ensures GoodDevice(ids, devices[k]) {
        assert devices[k] in devices;
        assert OkDevice(ids, devices[k]);
      }
    }

    /** mtdparts_init after a new start: whatever the variable holds is parsed, and the partition
        that the other variable names is chosen. */
    method Restart() returns (rc: int)
      requires Valid()
      modifies `devices, `current, `curPart, `mtdDevNum, `mtdDevName, `partition, `lastPartition, `lastParts
      ensures Valid() && CurrentOk() && Indexed()
      ensures (rc, devices) ==
              if mtdparts.None? then (0, [])
              else if |mtdparts.value| > MTDPARTS_MAXLEN - 1 then (1, [])
              else var table := ParseTable(mtdparts.value, ids); if table.None? then (1, []) else (0, table.value)
      ensures rc == 0 && mtdparts.Some? ==>
        && devices != []
        && var first := PartitionText(devices[0].id.kind, devices[0].id.num, 0);
           var f := Wanted(devices, old(partition), first);
           if f.Some? then Here() == Some(f.value.dev) && curPart == f.value.num else Here() == Some(0) && curPart == 0
    {
      hide OkIds, OkDevices, ParseTable, Lookup, FindDevice, PartitionText, Before, Word16, Wanted;
      Reset();
      rc := Init();
    }

    /** Saving the table and starting again. A saved table loads if and only if every size can be
        parsed and the text with its prefix is short enough; then the same partitions are there,
        and the same one is current if and only if it was the first, or the text that names it
        is the name of no partition but itself. */
    method SaveAndReload() returns (rc: int)
      requires Valid() && CurrentOk() && Indexed() && PartitionKept() && devices != []
      modifies this
      ensures Valid() && CurrentOk() && Indexed()
      ensures mtdparts.Some? <==> old(|DevsText(devices)|) <= MTDPARTS_MAXLEN - 1
      ensures mtdparts.Some? ==>
                (rc == 0 <==> old(AllReparsable(devices)) && old(|DevsText(devices)|) <= MTDPARTS_MAXLEN - 1 - |PREFIX|)
      ensures mtdparts.Some? && rc == 0 ==>
        && devices == ReparsedAll(old(devices))
        && (current == old(current) && curPart == old(curPart) <==>
              ComesBack(devices, old(lastPartition), old(Here()), old(curPart)))
    {
      hide OkIds, OkDevices, AllReparsable, DevsText, TableText, ParseTable, ReparsedAll, Lookup,
        FirstNamed, FindDevice, PartitionText, Extent, Before, Word16, Good, Wanted, ComesBack, Unread, Synced,
        TextKept;
      SavedText();
      ghost var here, part, text, devs := Here().value, curPart, lastPartition, devices;
      var saved, extent := GenerateSave();
      rc := Restart();
      if mtdparts.Some? && rc == 0 {
        CursorBack(devs, here, part, text);
      }
    }

    /** What is saved, and what a new start makes of it. */
    lemma SavedText()
      requires Valid() && CurrentOk() && Indexed() && PartitionKept() && devices != []
      ensures |TableText(devices)| == |PREFIX| + |DevsText(devices)| && Good(devices)
      ensures ParseTable(TableText(devices), ids) ==
              if AllReparsable(devices) then Some(ReparsedAll(devices)) else None
      ensures Here().Some? && Here().value < |devices| && curPart < 256
      ensures current == Some(devices[Here().value].id) && curPart < |devices[Here().value].parts|
      ensures lastPartition == PartitionText(current.value.kind, current.value.num, curPart)
      ensures partition == Some(lastPartition)
    {
      hide OkIds, OkDevices, GoodDevices, AllReparsable, DevsText, ParseTable, ReparsedAll, UniqueKeys,
        FindDevice, PartitionText, Before, Word16, Good;
      TableIsGood();
      TableRoundTrip(ids, devices);
      TableTextIs(devices);
      HaveCurrent();
      SomeText(current.value.kind, current.value.num, curPart);
    }

    /** Where the saved text leads after a restart. */
    lemma CursorBack(devs: seq<Device>, here: nat, part: nat, text: string)
      requires Valid() && CurrentOk() && devices != [] && devices == ReparsedAll(devs)
      requires here < |devs| && part < 256 && part < |devs[here].parts| && Good(devs)
      requires text == PartitionText(devs[here].id.kind, devs[here].id.num, part)
      requires var first := PartitionText(devices[0].id.kind, devices[0].id.num, 0);
               var f := Wanted(devices, Some(text), first);
               if f.Some? then Here() == Some(f.value.dev) && curPart == f.value.num
               else Here() == Some(0) && curPart == 0
      ensures current == Some(devs[here].id) && curPart == part <==> ComesBack(devices, text, Some(here), part)
    {
      hide OkDevices, OkDevice, FirstNamed, Lookup, PartitionText, ReparsedAll, ReparsedDevice, FindDevice;
      SameIds(devs);
      KeysDiffer();
      SomeText(devs[here].id.kind, devs[here].id.num, part);
      var first := PartitionText(devices[0].id.kind, devices[0].id.num, 0);
      if text == first {
        TextInjective(devs[here].id.kind, devs[here].id.num, part, devices[0].id.kind, devices[0].id.num, 0);
      } else {
        LookupIs(here, part, text);
      }
    }

    /** The first partition of all is current, or the text is the name of no partition but the
        current one. */
    predicate ComesBack(devs: seq<Device>, text: string, here: Option<nat>, part: nat) {
      || (here == Some(0) && part == 0)
      || var named := FirstNamed(devs, 0, text);
         named.None? || (Some(named.value.dev) == here && named.value.num == part)
    }

    ghost predicate Good(devs: seq<Device>) {
      forall d :: d in devs ==> Sorted(d.parts) && OneAtZero(d.parts)
    }

    /** A restart finds the same devices, with as many partitions as before. */
    lemma SameIds(devs: seq<Device>)
      requires Valid() && devices == ReparsedAll(devs) && Good(devs)
      ensures |devs| == |devices|
      ensures forall i :: 0 <= i < |devs| ==>
                devices[i].id == devs[i].id && |devices[i].parts| == |devs[i].parts| && devs[i].id.num < 256
    {
      hide Sane, Reparsed, Resorted, Sorted, OneAtZero;
      forall i | 0 <= i < |devs|
        ensures devices[i].id == devs[i].id && |devices[i].parts| == |devs[i].parts| && devs[i].id.num < 256
      {
        assert devs[i] in devs && devices[i] in devices;
        assert devices[i] == ReparsedDevice(devs[i]);
        assert OkDevice(ids, devices[i]);
        SortedBack(devs[i]);
      }
    }

    lemma KeysDiffer()
      requires Valid()
      ensures forall i, j ::
                0 <= i < |devices| && 0 <= j < |devices| && SameKey(devices[i].id, devices[j].id) ==> i == j
    {
    }

    lemma LookupIs(here: nat, part: nat, text: string)
      requires Valid() && here < |devices| && part < 256 && part < |devices[here].parts| && devices[here].id.num < 256
      requires text == PartitionText(devices[here].id.kind, devices[here].id.num, part)
      ensures var named := FirstNamed(devices, 0, text);
              Lookup(devices, text) == if named.Some? then named else Some(Found(here, part, part))
    {
      hide OkDevices, OkIds, PartitionText, FirstNamed, MtdIdParse, Strtoul, FindDevice;
      if FirstNamed(devices, 0, text).None? { PartitionTextFinds(ids, devices, here, part); }
    }

    /** The saved number is the position among all partitions of all devices, in sixteen bits. */
    lemma NumberIsPosition() returns (i: nat)
      requires Valid() && CurrentOk() && Indexed() && current.Some?
      ensures i < |AllParts(devices)| && AllParts(devices)[i] == Current()
      ensures mtdDevNum == Some(i % 65536) && mtdDevName == Some(Current().name)
    {
      hide OkIds, OkDevices, AllParts, Before, PartitionText, FindDevice;
      i := Before(devices, Here().value) + curPart;
      GlobalNumber(devices, Here().value, curPart);
    }

    /** One command, and the table it works on. */
    method Execute(c: Command) returns (ghost worked: seq<Device>)
      requires Valid() && CurrentOk() && Indexed()
      modifies this
      ensures Valid() && Indexed() && (Tame(worked) ==> CurrentOk())
    {
      worked := Synced().1;
      var rc;
      match c
      case List => rc := CmdList();
      case Add(description) => rc := CmdAdd(description);
      case Del(id) => rc := CmdDel(id);
      case DelAll => CmdDelAll();
      case ChPart(id) => rc := CmdChPart(id);
      case SetParts(text) => SetParts(text);
      case SetPartition(text) => SetPartition(text);
      case Reboot => Reset();
    }

    /** Every run keeps the table in order. The cursor can only be lost by a command that works on
        a table in which two partitions of a device share an offset, or a device has more of them
        than an 8-bit number can tell apart; the run stops there. */
    method Run(commands: seq<Command>) returns (done: nat, ghost worked: seq<Device>)
      requires Valid() && CurrentOk() && Indexed()
      modifies this
      ensures Valid() && Indexed() && (CurrentOk() || !Tame(worked))
      ensures done <= |commands| && (done < |commands| ==> !CurrentOk())
    {
      done, worked := 0, [];
      while done < |commands|
        invariant done <= |commands| && Valid() && CurrentOk() && Indexed()
      {
        worked := Execute(commands[done]);
        done := done + 1;
        if !CurrentOk() { return; }
      }
    }
  }

  /** What was found is the current partition, and what was found is another one. */
  predicate Itself(f: Option<Found>, here: Option<nat>, part: nat) {
    f.Some? && here == Some(f.value.dev) && part == f.value.part
  }

  predicate Another(f: Option<Found>, here: Option<nat>, part: nat) {
    f.Some? && here.Some? && (here != Some(f.value.dev) || part != f.value.part)
  }

  /** No two partitions of a device at one offset, and numbers that fit 8 bits. */
  ghost predicate Tame(devs: seq<Device>) {
    forall d :: d in devs ==> StrictlySorted(d.parts) && |d.parts| <= 255
  }
}
