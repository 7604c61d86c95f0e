/**
 Accelerator memory: devices with used and available megabytes, allocations by task, and the
 conservation laws between them.
 */
module Gpu {
  import opened Wrappers

  type TaskId = string
  type Accelerator = string

  datatype Device = Device(name: string, accelerator: Accelerator, total: nat, available: nat, used: nat) {
    /** Unused memory, never below zero. */
    function Free(): nat {
      if used <= total then total - used else 0
    }
  }
  datatype Allocation = Allocation(device: nat, memory: nat)
  datatype Pool = Pool(devices: seq<Device>, allocations: map<TaskId, Allocation>)

  datatype Op =
    | Add(name: string, accelerator: Accelerator, total: nat)
    | Allocate(task: TaskId, memory: nat, wanted: Option<Accelerator>)
    | Release(task: TaskId)

  const EMPTY: Pool := Pool([], map[])

  // ---------------------------------------------------------------- the operations

  predicate Matches(d: Device, wanted: Option<Accelerator>) {
    wanted == None || d.accelerator == wanted.value
  }

  predicate Fits(d: Device, memory: nat, wanted: Option<Accelerator>) {
    Matches(d, wanted) && d.Free() >= memory
  }

  /** Of the devices that fit, `i` has the most free memory, and is the last of those. */
  ghost predicate IsBest(devices: seq<Device>, memory: nat, wanted: Option<Accelerator>, i: nat) {
    && i < |devices| && Fits(devices[i], memory, wanted)
    && (forall j :: 0 <= j < |devices| && Fits(devices[j], memory, wanted) ==> devices[j].Free() <= devices[i].Free())
    && (forall j :: i < j < |devices| && Fits(devices[j], memory, wanted) ==> devices[j].Free() < devices[i].Free())
  }

  ghost predicate NoneFits(devices: seq<Device>, memory: nat, wanted: Option<Accelerator>) {
    forall j :: 0 <= j < |devices| ==> !Fits(devices[j], memory, wanted)
  }

  /** A device with another amount used, its mirrored field kept in step. */
  function WithUsed(d: Device, used: nat): Device {
    var e := d.(used := used);
    e.(available := e.Free())
  }

  function PlaceAt(p: Pool, i: nat, task: TaskId, memory: nat): Pool
    requires i < |p.devices|
  {
    var d := p.devices[i];
    Pool(p.devices[i := WithUsed(d, d.used + memory)], p.allocations[task := Allocation(i, memory)])
  }

  function Monus(a: nat, b: nat): nat {
    if b <= a then a - b else 0
  }

  function Released(p: Pool, task: TaskId): Pool
    requires task in p.allocations && p.allocations[task].device < |p.devices|
  {
    var a := p.allocations[task];
    var d := p.devices[a.device];
    Pool(p.devices[a.device := WithUsed(d, Monus(d.used, a.memory))], p.allocations - {task})
  }

  /** `after` is the pool after one operation. */
  ghost predicate Step(p: Pool, op: Op, after: Pool) {
    match op
    case Add(name, accelerator, total) =>
      after == p.(devices := p.devices + [Device(name, accelerator, total, total, 0)])
    case Allocate(task, memory, wanted) =>
      if NoneFits(p.devices, memory, wanted) then after == p
      else exists i: nat :: IsBest(p.devices, memory, wanted, i) && after == PlaceAt(p, i, task, memory)
    case Release(task) =>
      if task in p.allocations then p.allocations[task].device < |p.devices| && after == Released(p, task)
      else after == p
  }

  /** Every allocation is on a device of the pool. */
  ghost predicate Placed(p: Pool) {
    forall t :: t in p.allocations ==> p.allocations[t].device < |p.devices|
  }

  /** The last device with the most free memory among those that fit, if any fits. */
  method FindBest(devices: seq<Device>, memory: nat, wanted: Option<Accelerator>) returns (best: Option<nat>)
    ensures best == None <==> NoneFits(devices, memory, wanted)
    ensures best.Some? ==> IsBest(devices, memory, wanted, best.value)
  {
    best := None;
    for i := 0 to |devices|
      invariant best == None ==> NoneFits(devices[..i], memory, wanted)
      invariant best.Some? ==> IsBest(devices[..i], memory, wanted, best.value)
    {
      if Fits(devices[i], memory, wanted) && (best == None || devices[best.value].Free() <= devices[i].Free()) {
        best := Some(i);
      }
    }
    assert devices[..|devices|] == devices;
  }

  class ComputeScheduler {
    var devices: seq<Device>
    var allocations: map<TaskId, Allocation>

    ghost function View(): Pool
      reads this
    {
      Pool(devices, allocations)
    }

    constructor ()
      ensures View() == EMPTY
    {
      devices, allocations := [], map[];
    }

    method AddDevice(name: string, accelerator: Accelerator, total: nat)
      modifies this
      ensures Step(old(View()), Add(name, accelerator, total), View())
    {
      devices := devices + [Device(name, accelerator, total, total, 0)];
    }

    /** Fails exactly when no device of the wanted kind has room. */
    method AllocateMemory(task: TaskId, memory: nat, wanted: Option<Accelerator>) returns (r: Option<Allocation>)
      modifies this
      ensures Step(old(View()), Allocate(task, memory, wanted), View())
      ensures r == None <==> NoneFits(old(devices), memory, wanted)
      ensures r.Some? ==> task in allocations && r.value == allocations[task] && r.value.memory == memory
    {
      var best := FindBest(devices, memory, wanted);
      if best == None {
        return None;
      }
      var i: nat := best.value;
      devices := devices[i := devices[i].(used := devices[i].used + memory)];
      devices := devices[i := devices[i].(available := devices[i].Free())];
      allocations := allocations[task := Allocation(i, memory)];
      assert View() == PlaceAt(old(View()), i, task, memory);
      return Some(Allocation(i, memory));
    }

    method ReleaseMemory(task: TaskId) returns (found: bool)
      requires Placed(View())
      modifies this
      ensures Step(old(View()), Release(task), View())
      ensures found <==> task in old(allocations)
    {
      if task !in allocations {
        return false;
      }
      var a := allocations[task];
      allocations := allocations - {task};
      devices := devices[a.device := devices[a.device].(used := Monus(devices[a.device].used, a.memory))];
      devices := devices[a.device := devices[a.device].(available := devices[a.device].Free())];
      assert View() == Released(old(View()), task);
      return true;
    }

    method AvailableMemory(wanted: Option<Accelerator>) returns (sum: nat)
      ensures sum == TotalFree(devices, wanted)
    {
      sum := 0;
      for i := 0 to |devices|
        invariant sum == TotalFree(devices[..i], wanted)
      {
        assert devices[..i + 1] == devices[..i] + [devices[i]];
        if Matches(devices[i], wanted) {
          sum := sum + devices[i].Free();
        }
      }
      assert devices[..|devices|] == devices;
    }
  }

  function TotalFree(devices: seq<Device>, wanted: Option<Accelerator>): nat {
    if devices == [] then 0
    else
      var d := devices[|devices| - 1];
      TotalFree(devices[..|devices| - 1], wanted) + if Matches(d, wanted) then d.Free() else 0
  }

  // ---------------------------------------------------------------- live memory

  function On(a: Allocation, i: nat): nat {
    if a.device == i then a.memory else 0
  }

  /** The memory of the live allocations on device `i`. */
  ghost function Live(allocations: map<TaskId, Allocation>, i: nat): nat
    decreases allocations.Keys
  {
    if allocations == map[] then 0
    else
      var t :| t in allocations;
      assert t !in (allocations - {t}).Keys;
      On(allocations[t], i) + Live(allocations - {t}, i)
  }

  /** Taking any one allocation out lowers the sum by its memory. */
  lemma {:induction false} LiveWithout(allocations: map<TaskId, Allocation>, t: TaskId, i: nat)
    requires t in allocations
    ensures Live(allocations, i) == On(allocations[t], i) + Live(allocations - {t}, i)
    decreases allocations.Keys
  {
    var u :| u in allocations && Live(allocations, i) == On(allocations[u], i) + Live(allocations - {u}, i);
    if u != t {
      LiveWithout(allocations - {u}, t, i);
      assert u in allocations - {t};
      LiveWithout(allocations - {t}, u, i);
      assert allocations - {u} - {t} == allocations - {t} - {u};
    }
  }

  lemma LiveAdded(allocations: map<TaskId, Allocation>, t: TaskId, a: Allocation, i: nat)
    ensures Live(allocations[t := a], i)
            == On(a, i) + Live(allocations, i) - if t in allocations then On(allocations[t], i) else 0
  {
    LiveWithout(allocations[t := a], t, i);
    if t in allocations {
      LiveWithout(allocations, t, i);
      assert allocations[t := a] - {t} == allocations - {t};
    } else {
      assert allocations[t := a] - {t} == allocations;
    }
  }

  // ---------------------------------------------------------------- every run

  /** Within its total, mirrored, and covering its live allocations. */
  ghost predicate DeviceSound(p: Pool, i: nat)
    requires i < |p.devices|
  {
    var d := p.devices[i];
    d.used <= d.total && d.available == d.total - d.used && Live(p.allocations, i) <= d.used
  }

  ghost predicate Sound(p: Pool) {
    Placed(p) && forall i :: 0 <= i < |p.devices| ==> DeviceSound(p, i)
  }

  /** What is used is exactly what is allocated. */
  ghost predicate Exact(p: Pool) {
    forall i :: 0 <= i < |p.devices| ==> p.devices[i].used == Live(p.allocations, i)
  }

  lemma AddKeeps(p: Pool, op: Op, after: Pool)
    requires Sound(p) && op.Add? && Step(p, op, after)
    ensures Sound(after) && (Exact(p) ==> Exact(after))
  {
    NotYetUsed(p.allocations, |p.devices|);
    forall i | 0 <= i < |after.devices| ensures DeviceSound(after, i) {
      assert i < |p.devices| ==> DeviceSound(p, i);
    }
  }

  lemma {:induction false} NotYetUsed(allocations: map<TaskId, Allocation>, i: nat)
    requires forall t :: t in allocations ==> allocations[t].device != i
    ensures Live(allocations, i) == 0
    decreases allocations.Keys
  {
    if allocations != map[] {
      var t :| t in allocations;
      LiveWithout(allocations, t, i);
      NotYetUsed(allocations - {t}, i);
    }
  }

  /** Memory a reused id leaves behind: used on device `j`, but no longer allocated. */
  function Leaked(p: Pool, task: TaskId, j: nat): nat {
    if task in p.allocations then On(p.allocations[task], j) else 0
  }

  lemma PlaceChanges(p: Pool, i: nat, task: TaskId, memory: nat, j: nat)
    requires i < |p.devices| && j < |p.devices|
    ensures var after := PlaceAt(p, i, task, memory);
            after.devices[j].used - Live(after.allocations, j)
            == p.devices[j].used - Live(p.allocations, j) + Leaked(p, task, j)
  {
    LiveAdded(p.allocations, task, Allocation(i, memory), j);
  }

  lemma PlaceKeepsSound(p: Pool, i: nat, task: TaskId, memory: nat)
    requires Sound(p) && i < |p.devices| && p.devices[i].Free() >= memory
    ensures Sound(PlaceAt(p, i, task, memory))
  {
    var after := PlaceAt(p, i, task, memory);
    forall j | 0 <= j < |after.devices| ensures DeviceSound(after, j) {
      assert DeviceSound(p, j);
      PlaceChanges(p, i, task, memory, j);
    }
  }

  /** A release never clips at zero, and takes off exactly what it frees. */
  lemma ReleaseChanges(p: Pool, task: TaskId, j: nat)
    requires Sound(p) && task in p.allocations && j < |p.devices|
    ensures var a, after := p.allocations[task], Released(p, task);
            && after.devices[j].used == p.devices[j].used - On(a, j)
            && Live(after.allocations, j) == Live(p.allocations, j) - On(a, j)
  {
    LiveWithout(p.allocations, task, j);
    assert DeviceSound(p, j);
  }

  lemma ReleaseKeepsSound(p: Pool, task: TaskId)
    requires Sound(p) && task in p.allocations
    ensures Sound(Released(p, task))
  {
    var after := Released(p, task);
    forall j | 0 <= j < |after.devices| ensures DeviceSound(after, j) {
      assert DeviceSound(p, j);
      ReleaseChanges(p, task, j);
    }
  }

  lemma StepKeepsSound(p: Pool, op: Op, after: Pool)
    requires Sound(p) && Step(p, op, after)
    ensures Sound(after)
  {
    match op
    case Add(_, _, _) => AddKeeps(p, op, after);
    case Allocate(task, memory, wanted) =>
      if !NoneFits(p.devices, memory, wanted) {
        var i: nat :| IsBest(p.devices, memory, wanted, i) && after == PlaceAt(p, i, task, memory);
        PlaceKeepsSound(p, i, task, memory);
      }
    case Release(task) =>
      if task in p.allocations {
        ReleaseKeepsSound(p, task);
      }
  }

  /** `pools` are the states of a run from the empty pool, one before and after each operation. */
  ghost predicate History(ops: seq<Op>, pools: seq<Pool>) {
    && |pools| == |ops| + 1 && pools[0] == EMPTY
    && forall k :: 0 <= k < |ops| ==> Step(pools[k], ops[k], pools[k + 1])
  }

  /** In every run each device stays within its total, mirrored, and covers its live allocations. */
  lemma {:induction false} AlwaysSound(ops: seq<Op>, pools: seq<Pool>, n: nat)
    requires History(ops, pools) && n <= |ops|
    ensures Sound(pools[n])
    decreases n
  {
    if n > 0 {
      AlwaysSound(ops, pools, n - 1);
      StepKeepsSound(pools[n - 1], ops[n - 1], pools[n]);
    }
  }

  /** The operation takes over the id of a live allocation that holds memory. */
  ghost predicate Overwrites(p: Pool, op: Op) {
    && op.Allocate? && !NoneFits(p.devices, op.memory, op.wanted)
    && op.task in p.allocations && p.allocations[op.task].memory > 0
  }

  /** One operation breaks the equality of used and live memory exactly if it reuses a live id that holds memory. */
  lemma ExactKeptExactly(p: Pool, op: Op, after: Pool)
    requires Sound(p) && Exact(p) && Step(p, op, after)
    ensures Exact(after) <==> !Overwrites(p, op)
  {
    match op
    case Add(_, _, _) => AddKeeps(p, op, after);
    case Allocate(task, memory, wanted) =>
      if !NoneFits(p.devices, memory, wanted) {
        var i: nat :| IsBest(p.devices, memory, wanted, i) && after == PlaceAt(p, i, task, memory);
        PlaceIsExactUnlessLeaked(p, i, task, memory);
      }
    case Release(task) =>
      if task in p.allocations {
        forall j | 0 <= j < |after.devices| ensures after.devices[j].used == Live(after.allocations, j) {
          ReleaseChanges(p, task, j);
        }
      }
  }

  lemma PlaceIsExactUnlessLeaked(p: Pool, i: nat, task: TaskId, memory: nat)
    requires Placed(p) && Exact(p) && i < |p.devices|
    ensures Exact(PlaceAt(p, i, task, memory)) <==> !(task in p.allocations && p.allocations[task].memory > 0)
  {
    var after := PlaceAt(p, i, task, memory);
    forall j | 0 <= j < |after.devices|
      ensures after.devices[j].used == Live(after.allocations, j) <==> Leaked(p, task, j) == 0
    {
      PlaceChanges(p, i, task, memory, j);
    }
    if task in p.allocations && p.allocations[task].memory > 0 {
      assert Leaked(p, task, p.allocations[task].device) > 0;
    }
  }

  /** Some device counts memory as used that no live allocation holds. */
  ghost predicate Leaks(p: Pool) {
    exists i :: 0 <= i < |p.devices| && Live(p.allocations, i) < p.devices[i].used
  }

  /** A leak is permanent: no operation gives the memory back. */
  lemma LeakIsPermanent(p: Pool, op: Op, after: Pool)
    requires Sound(p) && Leaks(p) && Step(p, op, after)
    ensures Leaks(after)
  {
    var i :| 0 <= i < |p.devices| && Live(p.allocations, i) < p.devices[i].used;
    match op
    case Add(_, _, _) => assert after.devices[i] == p.devices[i];
    case Allocate(task, memory, wanted) =>
      if !NoneFits(p.devices, memory, wanted) {
        var j: nat :| IsBest(p.devices, memory, wanted, j) && after == PlaceAt(p, j, task, memory);
        PlaceChanges(p, j, task, memory, i);
        assert Live(after.allocations, i) < after.devices[i].used;
      }
    case Release(task) =>
      if task in p.allocations {
        ReleaseChanges(p, task, i);
        assert Live(after.allocations, i) < after.devices[i].used;
      }
  }

  lemma ExactUnlessLeaks(p: Pool)
    requires Sound(p)
    ensures Exact(p) <==> !Leaks(p)
  {
    forall i | 0 <= i < |p.devices| ensures Live(p.allocations, i) <= p.devices[i].used {
      assert DeviceSound(p, i);
    }
  }

  ghost predicate NeverOverwrites(ops: seq<Op>, pools: seq<Pool>, n: nat)
    requires n <= |ops| && |pools| == |ops| + 1
  {
    forall k :: 0 <= k < n ==> !Overwrites(pools[k], ops[k])
  }

  /**
   Along every run, used equals live memory after `n` operations exactly if none of them took over a
   live id that holds memory.
   */
  lemma {:induction false} ExactUntilOverwritten(ops: seq<Op>, pools: seq<Pool>, n: nat)
    requires History(ops, pools) && n <= |ops|
    ensures Exact(pools[n]) <==> NeverOverwrites(ops, pools, n)
    decreases n
  {
    if n > 0 {
      var k := n - 1;
      ExactUntilOverwritten(ops, pools, k);
      AlwaysSound(ops, pools, k);
      AlwaysSound(ops, pools, n);
      assert NeverOverwrites(ops, pools, n) <==> NeverOverwrites(ops, pools, k) && !Overwrites(pools[k], ops[k]);
      if Exact(pools[k]) {
        ExactKeptExactly(pools[k], ops[k], pools[n]);
      } else {
        ExactUnlessLeaks(pools[k]);
        LeakIsPermanent(pools[k], ops[k], pools[n]);
        ExactUnlessLeaks(pools[n]);
      }
    }
  }

  /** One device, one id allocated twice: two megabytes used, one of them for good. */
  lemma ReusedIdLeaks(task: TaskId)
    ensures var d := Device("gpu", "cuda", 4, 4, 0);
            var one, two := WithUsed(d, 1), WithUsed(d, 2);
            var ops := [Add("gpu", "cuda", 4), Allocate(task, 1, None), Allocate(task, 1, None), Release(task)];
            && History(ops, [EMPTY, Pool([d], map[]), Pool([one], map[task := Allocation(0, 1)]),
                             Pool([two], map[task := Allocation(0, 1)]), Pool([one], map[])])
            && !Exact(Pool([one], map[]))
  {
    var d := Device("gpu", "cuda", 4, 4, 0);
    var one, two, a := WithUsed(d, 1), WithUsed(d, 2), map[task := Allocation(0, 1)];
    assert [] + [d] == [d];
    OnlyDevice(d, 1);
    OnlyDevice(one, 1);
    assert PlaceAt(Pool([d], map[]), 0, task, 1) == Pool([one], a);
    assert PlaceAt(Pool([one], a), 0, task, 1) == Pool([two], a);
    assert Released(Pool([two], a), task) == Pool([one], map[]);
    assert Pool([one], map[]).devices[0].used == 1;
  }

  lemma OnlyDevice(d: Device, memory: nat)
    requires d.Free() >= memory
    ensures IsBest([d], memory, None, 0) && !NoneFits([d], memory, None)
  {
    assert Fits([d][0], memory, None);
  }

  /** Releasing what was just allocated restores the pool exactly when the id was free. */
  lemma AllocateThenRelease(p: Pool, i: nat, task: TaskId, memory: nat)
    requires Sound(p) && i < |p.devices|
    ensures Released(PlaceAt(p, i, task, memory), task) == p <==> task !in p.allocations
  {
    var after := Released(PlaceAt(p, i, task, memory), task);
    assert DeviceSound(p, i);
    if task !in p.allocations {
      assert after.allocations == p.allocations;
      assert after.devices == p.devices;
    } else {
      assert task !in after.allocations;
    }
  }

  lemma {:induction false} FreeAt(devices: seq<Device>, i: nat, d: Device, wanted: Option<Accelerator>)
    requires i < |devices| && d.accelerator == devices[i].accelerator
    ensures TotalFree(devices[i := d], wanted)
            == TotalFree(devices, wanted) + if Matches(d, wanted) then d.Free() - devices[i].Free() else 0
  {
    var n := |devices| - 1;
    if i < n {
      FreeAt(devices[..n], i, d, wanted);
      assert devices[i := d][..n] == devices[..n][i := d];
    } else {
      assert devices[i := d][..n] == devices[..n];
    }
  }

  /**
   Memory is conserved: an allocation takes its size from the free total of every kind of device the
   chosen one belongs to, a release gives it back, and all other totals stay.
   */
  lemma FreeIsConserved(p: Pool, i: nat, task: TaskId, memory: nat, wanted: Option<Accelerator>)
    requires Sound(p) && i < |p.devices| && p.devices[i].Free() >= memory
    ensures TotalFree(PlaceAt(p, i, task, memory).devices, wanted)
            == TotalFree(p.devices, wanted) - if Matches(p.devices[i], wanted) then memory else 0
    ensures task in p.allocations ==>
              var a := p.allocations[task];
              TotalFree(Released(p, task).devices, wanted)
              == TotalFree(p.devices, wanted) + if Matches(p.devices[a.device], wanted) then a.memory else 0
  {
    assert DeviceSound(p, i);
    FreeAt(p.devices, i, PlaceAt(p, i, task, memory).devices[i], wanted);
    if task in p.allocations {
      var j := p.allocations[task].device;
      ReleaseChanges(p, task, j);
      assert DeviceSound(p, j);
      FreeAt(p.devices, j, Released(p, task).devices[j], wanted);
    }
  }

  // ---------------------------------------------------------------- allocation in plain terms

  /** The device is of the wanted kind, if one is wanted, and has that much unused. */
  ghost predicate HasRoom(d: Device, memory: nat, wanted: Option<Accelerator>) {
    (wanted.Some? ==> d.accelerator == wanted.value) && d.used + memory <= d.total
  }

  /** Of the devices with room, `i` has the most unused, and is the last of those. */
  ghost predicate MostUnused(devices: seq<Device>, memory: nat, wanted: Option<Accelerator>, i: nat) {
    && i < |devices| && HasRoom(devices[i], memory, wanted)
    && forall j :: 0 <= j < |devices| && HasRoom(devices[j], memory, wanted) ==>
         && devices[j].total - devices[j].used <= devices[i].total - devices[i].used
         && (j > i ==> devices[j].total - devices[j].used < devices[i].total - devices[i].used)
  }

  /** The memory is taken from device `i` and recorded under the task, and nothing else changes. */
  ghost predicate TakenFrom(p: Pool, i: nat, task: TaskId, memory: nat, after: Pool) {
    && i < |p.devices| && p.devices[i].used + memory <= p.devices[i].total
    && after.devices == p.devices[i := p.devices[i].(used := p.devices[i].used + memory,
                                                     available := p.devices[i].total - (p.devices[i].used + memory))]
    && after.allocations == p.allocations[task := Allocation(i, memory)]
  }

  lemma RoomExactly(p: Pool, j: nat, memory: nat, wanted: Option<Accelerator>)
    requires Sound(p) && j < |p.devices|
    ensures Fits(p.devices[j], memory, wanted) <==> HasRoom(p.devices[j], memory, wanted)
    ensures p.devices[j].Free() == p.devices[j].total - p.devices[j].used
  {
    assert DeviceSound(p, j);
  }

  lemma BestIsMostUnused(p: Pool, memory: nat, wanted: Option<Accelerator>, i: nat)
    requires Sound(p) && IsBest(p.devices, memory, wanted, i)
    ensures MostUnused(p.devices, memory, wanted, i)
  {
    forall j | 0 <= j < |p.devices|
      ensures Fits(p.devices[j], memory, wanted) <==> HasRoom(p.devices[j], memory, wanted)
      ensures p.devices[j].Free() == p.devices[j].total - p.devices[j].used
    {
      RoomExactly(p, j, memory, wanted);
    }
  }

  /**
   In a sound pool an allocation changes nothing exactly if no device of the wanted kind has room;
   otherwise it takes the memory from one with the most unused, the last of several.
   */
  lemma AllocateExactly(p: Pool, task: TaskId, memory: nat, wanted: Option<Accelerator>, after: Pool) returns (i: nat)
    requires Sound(p) && Step(p, Allocate(task, memory, wanted), after)
    ensures if exists j :: 0 <= j < |p.devices| && HasRoom(p.devices[j], memory, wanted)
            then MostUnused(p.devices, memory, wanted, i) && TakenFrom(p, i, task, memory, after)
            else after == p
  {
    i := 0;
    if j :| 0 <= j < |p.devices| && HasRoom(p.devices[j], memory, wanted) {
      RoomExactly(p, j, memory, wanted);
      i :| IsBest(p.devices, memory, wanted, i) && after == PlaceAt(p, i, task, memory);
      BestIsMostUnused(p, memory, wanted, i);
    } else {
      forall j | 0 <= j < |p.devices| ensures !Fits(p.devices[j], memory, wanted) {
        RoomExactly(p, j, memory, wanted);
      }
    }
  }

  /** A release gives the memory of a live id back to its device and forgets the id; an unknown id changes nothing. */
  lemma ReleaseExactly(p: Pool, task: TaskId, after: Pool)
    requires Sound(p) && Step(p, Release(task), after)
    ensures task !in p.allocations ==> after == p
    ensures task in p.allocations ==>
              var a := p.allocations[task];
              && a.device < |p.devices| && a.memory <= p.devices[a.device].used <= p.devices[a.device].total
              && after.allocations == p.allocations - {task}
              && after.devices == p.devices[a.device := p.devices[a.device].(
                                              used := p.devices[a.device].used - a.memory,
                                              available := p.devices[a.device].total - (p.devices[a.device].used - a.memory))]
  {
    if task in p.allocations {
      var a := p.allocations[task];
      ReleaseChanges(p, task, a.device);
      assert DeviceSound(p, a.device);
    }
  }
}
