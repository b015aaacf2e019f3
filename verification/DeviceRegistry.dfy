/** The device registry: an array kept in registration order, searched by id, type, major number and name. */
module DeviceRegistry {
  import opened Arithmetic
  import opened CStrings
  import opened Words

  const NAME_LENGTH: nat := 128

  datatype Device = Device(
    id: Word, deviceType: nat, major: Word, minor: Word, name: string, status: nat, initialized: nat)

  // ---------- Names ----------

  /** Position of the terminator, or the length of a buffer without one. */
  function TextLength(buffer: string): (n: nat)
    ensures n <= |buffer| && '\0' !in buffer[..n]
    ensures n < |buffer| ==> buffer[n] == '\0'
  {
    if buffer == [] || buffer[0] == '\0' then 0
    else
      var n := 1 + TextLength(buffer[1..]);
      assert buffer[..n] == [buffer[0]] + buffer[1..][..n - 1];
      n
  }

  /** The characters of a name buffer up to the terminator, or all of them. */
  function Text(buffer: string): string {
    buffer[..TextLength(buffer)]
  }

  /** What is left of a name after the copy into a buffer: at most 128 characters. */
  function Clip(name: CString): string {
    if |name| <= NAME_LENGTH then name else name[..NAME_LENGTH]
  }

  predicate Named(buffer: string, name: CString) {
    Text(buffer) == Clip(name)
  }

  lemma TextUnique(buffer: string, t: string)
    requires |t| <= |buffer| && t == buffer[..|t|] && '\0' !in t
    requires |t| < |buffer| ==> buffer[|t|] == '\0'
    ensures Text(buffer) == t
  {
    var n := TextLength(buffer);
    assert forall k :: 0 <= k < n ==> buffer[..n][k] == buffer[k];
    assert forall k :: 0 <= k < |t| ==> t[k] == buffer[k];
  }

  /** The copy loop of `device_register`: it stops after the terminator, leaving the rest of the buffer as it was. */
  method CopyName(buffer: string, name: CString) returns (r: string)
    requires |buffer| == NAME_LENGTH
    ensures |r| == NAME_LENGTH && Text(r) == if |name| <= 128 then name else name[..128]
    ensures forall k :: |name| < k < NAME_LENGTH ==> r[k] == buffer[k]
  {
    r := buffer;
    var i := 0;
    while i < NAME_LENGTH
      invariant i <= NAME_LENGTH && i <= |name| && |r| == NAME_LENGTH
      invariant r[..i] == name[..i]
      invariant forall k :: i <= k < NAME_LENGTH ==> r[k] == buffer[k]
    {
      if i < |name| {
        r := r[i := name[i]];
      } else {
        r := r[i := '\0'];
        break;
      }
      i := i + 1;
    }
    TextUnique(r, Clip(name));
  }

  /** The comparison loop of `find_device_by_name`. */
  method SameName(buffer: string, name: CString) returns (same: bool)
    requires |buffer| == NAME_LENGTH
    ensures same <==> Named(buffer, name)
    ensures same <==> Text(buffer) == if |name| <= 128 then name else name[..128]
  {
    var j := 0;
    while j < NAME_LENGTH
      invariant j <= NAME_LENGTH && j <= |name|
      invariant buffer[..j] == name[..j]
    {
      var c := CharAt(name, j);
      if buffer[j] != c {
        Differ(buffer, name, j);
        return false;
      }
      if c == '\0' { break; }
      j := j + 1;
    }
    TextUnique(buffer, Clip(name));
    return true;
  }

  lemma Differ(buffer: string, name: CString, j: nat)
    requires |buffer| == NAME_LENGTH && j < NAME_LENGTH && j <= |name| && buffer[..j] == name[..j]
    requires buffer[j] != CharAt(name, j)
    ensures Text(buffer) != Clip(name)
  {
  }

  // ---------- The registry as a sequence ----------

  /** Ids increase strictly along the list. */
  predicate Ordered(ds: seq<Device>) {
    forall i, j :: 0 <= i < j < |ds| ==> ds[i].id < ds[j].id
  }

  predicate Distinct(ds: seq<Device>) {
    forall i, j :: 0 <= i < j < |ds| ==> ds[i].id != ds[j].id
  }

  /** Every id is below `next`. */
  predicate Below(ds: seq<Device>, next: nat) {
    forall i :: 0 <= i < |ds| ==> ds[i].id < next
  }

  function Ids(ds: seq<Device>): set<Word> {
    set d | d in ds :: d.id
  }

  /** The list without the entry of `id`. */
  function Without(ds: seq<Device>, id: Word): seq<Device> {
    if ds == [] then []
    else if ds[0].id == id then ds[1..]
    else [ds[0]] + Without(ds[1..], id)
  }

  lemma OrderedTail(ds: seq<Device>)
    requires Ordered(ds) && ds != []
    ensures Ordered(ds[1..])
    ensures forall d :: d in ds[1..] ==> ds[0].id < d.id
    ensures forall d :: d in ds <==> d == ds[0] || d in ds[1..]
  {
    assert ds == [ds[0]] + ds[1..];
  }

  lemma OrderedCons(d: Device, ds: seq<Device>)
    requires Ordered(ds)
    requires forall e :: e in ds ==> d.id < e.id
    ensures Ordered([d] + ds)
  {
  }

  lemma OrderedUpdate(ds: seq<Device>, i: nat, d: Device)
    requires i < |ds| && d.id == ds[i].id
    ensures Ordered(ds[i := d]) <==> Ordered(ds)
  {
    assert forall j :: 0 <= j < |ds| ==> ds[i := d][j].id == ds[j].id;
  }

  lemma {:induction false} WithoutId(ds: seq<Device>, id: Word)
    requires Ordered(ds)
    ensures Ordered(Without(ds, id))
    ensures forall d :: d in Without(ds, id) <==> d in ds && d.id != id
  {
    if ds != [] {
      OrderedTail(ds);
      if ds[0].id != id {
        WithoutId(ds[1..], id);
        OrderedCons(ds[0], Without(ds[1..], id));
      }
    }
  }

  /** An ordered list is determined by its set of entries: removing an entry keeps the order of the rest. */
  lemma {:induction false} OrderedUnique(ds: seq<Device>, es: seq<Device>)
    requires Ordered(ds) && Ordered(es)
    requires forall d :: d in ds <==> d in es
    ensures ds == es
    decreases |ds|
  {
    assert ds == [] || ds[0] in es;
    assert es == [] || es[0] in ds;
    if ds != [] && es != [] {
      assert ds[0] == es[0];
      OrderedTail(ds);
      OrderedTail(es);
      OrderedUnique(ds[1..], es[1..]);
      assert ds == [ds[0]] + ds[1..] && es == [es[0]] + es[1..];
    }
  }

  /** What the shift loop leaves when `i` is the first entry with its id. */
  lemma {:induction false} WithoutFirst(ds: seq<Device>, i: nat)
    requires i < |ds| && forall k :: 0 <= k < i ==> ds[k].id != ds[i].id
    ensures Without(ds, ds[i].id) == ds[..i] + ds[i + 1..]
    decreases i
  {
    if i > 0 {
      var t := ds[1..];
      assert forall k :: 0 <= k < i - 1 ==> t[k] == ds[k + 1];
      WithoutFirst(t, i - 1);
      assert [ds[0]] + (t[..i - 1] + t[i..]) == ds[..i] + ds[i + 1..];
    }
  }

  lemma {:induction false} WithoutMissing(ds: seq<Device>, id: Word)
    requires id !in Ids(ds)
    ensures Without(ds, id) == ds
  {
    if ds != [] {
      assert ds[0] in ds && forall d :: d in ds[1..] ==> d in ds;
      assert forall d :: d in ds ==> d.id in Ids(ds);
      WithoutMissing(ds[1..], id);
    }
  }

  /** One more entry keeps the order exactly when its id exceeds the last one. */
  lemma OrderAfterAppend(ds: seq<Device>, d: Device)
    requires Ordered(ds)
    ensures Ordered(ds + [d]) <==> ds == [] || ds[|ds| - 1].id < d.id
  {
    var r := ds + [d];
    if Ordered(r) && ds != [] {
      assert r[|ds| - 1].id < r[|ds|].id;
    }
  }

  /** One more entry keeps ids unique exactly when its id is not live. */
  lemma UniqueAfterAppend(ds: seq<Device>, d: Device)
    requires Distinct(ds)
    ensures Distinct(ds + [d]) <==> d.id !in Ids(ds)
  {
    var r := ds + [d];
    if Distinct(r) {
      forall i | 0 <= i < |ds| ensures ds[i].id != d.id {
        assert r[i].id != r[|ds|].id;
      }
    }
    if d.id !in Ids(ds) {
      assert forall i :: 0 <= i < |ds| ==> ds[i] in ds && ds[i].id in Ids(ds);
    }
  }

  // ---------- Runs ----------

  datatype Call = Register(device: Device) | Unregister(id: Word)

  /** The live devices, the next id, and the room there is. */
  datatype Registry = Registry(ds: seq<Device>, next: Word, capacity: nat)

  function Step(r: Registry, c: Call): (Registry, Word) {
    match c
    case Register(d) =>
      if |r.ds| >= r.capacity then (r, 0)
      else (r.(ds := r.ds + [d.(id := r.next)], next := Add32(r.next, 1)), r.next)
    case Unregister(id) => (r.(ds := Without(r.ds, id)), if id in Ids(r.ds) then 1 else 0)
  }

  function Run(r: Registry, calls: seq<Call>): Registry
    decreases |calls|
  {
    if calls == [] then r else Run(Step(r, calls[0]).0, calls[1..])
  }

  /** The ids a run gives out, in order. */
  function Issued(r: Registry, calls: seq<Call>): seq<Word>
    decreases |calls|
  {
    if calls == [] then []
    else
      var (q, id) := Step(r, calls[0]);
      if calls[0].Register? && |r.ds| < r.capacity then [id] + Issued(q, calls[1..]) else Issued(q, calls[1..])
  }

  lemma AdvancedOnce(next: Word, n: nat)
    requires n > 0
    ensures (Add32(next, 1) + (n - 1)) % MODULUS == (next + n) % MODULUS
  {
  }

  /** Over every run the ids given out are the consecutive words from the first one on, round the end if need be. */
  lemma {:induction false} IssuedIds(r: Registry, calls: seq<Call>, i: nat)
    requires i < |Issued(r, calls)|
    ensures Issued(r, calls)[i] == (r.next + i) % MODULUS
    decreases |calls|
  {
    var q := Step(r, calls[0]).0;
    if !(calls[0].Register? && |r.ds| < r.capacity) {
      IssuedIds(q, calls[1..], i);
    } else if i > 0 {
      AdvancedOnce(r.next, i);
      IssuedIds(q, calls[1..], i - 1);
    }
  }

  /** No id is given out twice in a run exactly when the run gives out at most 2^32 of them. */
  lemma IdsNeverReused(r: Registry, calls: seq<Call>)
    ensures var ids := Issued(r, calls);
            (forall i, j :: 0 <= i < j < |ids| ==> ids[i] != ids[j]) <==> |ids| <= MODULUS
  {
    var ids := Issued(r, calls);
    if |ids| > MODULUS {
      IssuedIds(r, calls, 0);
      IssuedIds(r, calls, MODULUS);
      assert ids[0] == ids[MODULUS];
    } else {
      forall i, j | 0 <= i < j < |ids| ensures ids[i] != ids[j] {
        IssuedIds(r, calls, i);
        IssuedIds(r, calls, j);
      }
    }
  }

  /** An accepted registration finds the list empty or its last id below the next one. */
  predicate KeepsOrder(r: Registry, c: Call) {
    c.Register? && 0 < |r.ds| < r.capacity ==> r.ds[|r.ds| - 1].id < r.next
  }

  lemma StepKeepsOrder(r: Registry, c: Call)
    requires Ordered(r.ds)
    ensures Ordered(Step(r, c).0.ds) <==> KeepsOrder(r, c)
  {
    match c {
      case Register(d) => OrderAfterAppend(r.ds, d.(id := r.next));
      case Unregister(id) => WithoutId(r.ds, id);
    }
  }

  predicate KeepsOrderRun(r: Registry, calls: seq<Call>)
    decreases |calls|
  {
    calls == [] || (KeepsOrder(r, calls[0]) && KeepsOrderRun(Step(r, calls[0]).0, calls[1..]))
  }

  predicate OrderedAfter(r: Registry, calls: seq<Call>, k: nat)
    requires k <= |calls|
  {
    Ordered(Run(r, calls[..k]).ds)
  }

  lemma OrderedAfterStep(r: Registry, calls: seq<Call>, k: nat)
    requires k < |calls|
    ensures OrderedAfter(r, calls, k + 1) <==> OrderedAfter(Step(r, calls[0]).0, calls[1..], k)
  {
    assert calls[..k + 1][1..] == calls[1..][..k];
  }

  /** The list is ordered by id at every point of a run exactly when every accepted registration of the run finds it
      empty or its last id below the next one. */
  lemma {:induction false} OrderedThroughout(r: Registry, calls: seq<Call>)
    requires Ordered(r.ds)
    ensures (forall k :: 0 <= k <= |calls| ==> OrderedAfter(r, calls, k)) <==> KeepsOrderRun(r, calls)
    decreases |calls|
  {
    assert OrderedAfter(r, calls, 0);
    if calls != [] {
      var q, rest := Step(r, calls[0]).0, calls[1..];
      StepKeepsOrder(r, calls[0]);
      assert OrderedAfter(q, rest, 0) <==> KeepsOrder(r, calls[0]);
      forall k | 0 <= k <= |rest| ensures OrderedAfter(r, calls, k + 1) <==> OrderedAfter(q, rest, k) {
        OrderedAfterStep(r, calls, k);
      }
      assert forall k :: 0 < k <= |calls| ==> (OrderedAfter(r, calls, k) <==> OrderedAfter(q, rest, k - 1));
      if KeepsOrder(r, calls[0]) { OrderedThroughout(q, rest); }
    }
  }

  /** That is so whenever the run does not push the id counter past its end; unregistrations and refusals do not move
      the counter. */
  lemma {:induction false} RunKeepsOrder(r: Registry, calls: seq<Call>)
    requires Ordered(r.ds) && (Issued(r, calls) == [] || Below(r.ds, r.next))
    requires r.next + |Issued(r, calls)| <= MODULUS
    ensures KeepsOrderRun(r, calls) && Ordered(Run(r, calls).ds)
    decreases |calls|
  {
    if calls != [] {
      StepKeepsOrder(r, calls[0]);
      if calls[0].Unregister? && Below(r.ds, r.next) { WithoutKeepsBelow(r.ds, calls[0].id, r.next); }
      RunKeepsOrder(Step(r, calls[0]).0, calls[1..]);
    }
  }

  lemma {:induction false} WithoutKeepsBelow(ds: seq<Device>, id: Word, next: nat)
    requires Below(ds, next)
    ensures Below(Without(ds, id), next)
  {
    if ds != [] && ds[0].id != id {
      WithoutKeepsBelow(ds[1..], id, next);
    }
  }

  // ---------- The end of the id counter ----------

  /** Register a device and unregister it again, `n` times. */
  function Churn(next: Word, d: Device, n: nat): seq<Call>
    decreases n
  {
    if n == 0 then [] else [Register(d), Unregister(next)] + Churn(Add32(next, 1), d, n - 1)
  }

  lemma OneChurn(r: Registry, d: Device)
    requires |r.ds| < r.capacity && Below(r.ds, r.next)
    ensures Step(Step(r, Register(d)).0, Unregister(r.next)).0 == r.(next := Add32(r.next, 1))
  {
    var ds := r.ds + [d.(id := r.next)];
    WithoutFirst(ds, |r.ds|);
    assert ds[..|r.ds|] + ds[|r.ds| + 1..] == r.ds;
  }

  lemma RunTwo(r: Registry, a: Call, b: Call, rest: seq<Call>)
    ensures Run(r, [a, b] + rest) == Run(Step(Step(r, a).0, b).0, rest)
  {
    assert ([a, b] + rest)[1..] == [b] + rest;
    assert ([b] + rest)[1..] == rest;
  }

  lemma ChurnUnfolds(next: Word, d: Device, n: nat, more: seq<Call>)
    requires n > 0
    ensures Churn(next, d, n) + more
         == [Register(d), Unregister(next)] + (Churn(Add32(next, 1), d, n - 1) + more)
  {
  }

  lemma ChurnRound(r: Registry, d: Device, n: nat, more: seq<Call>)
    requires |r.ds| < r.capacity && Below(r.ds, r.next) && n > 0
    ensures var q := r.(next := Add32(r.next, 1));
            Run(r, Churn(r.next, d, n) + more) == Run(q, Churn(q.next, d, n - 1) + more)
  {
    ChurnUnfolds(r.next, d, n, more);
    OneChurn(r, d);
    RunTwo(r, Register(d), Unregister(r.next), Churn(Add32(r.next, 1), d, n - 1) + more);
  }

  /** Churning moves nothing but the id counter, from `r.next` to `last`. */
  lemma {:induction false} ChurnAdvances(r: Registry, d: Device, n: nat, last: Word, more: seq<Call>)
    requires |r.ds| < r.capacity && (n > 0 ==> Below(r.ds, r.next))
    requires r.next + n == if last == 0 && n > 0 then MODULUS else last
    ensures Run(r, Churn(r.next, d, n) + more) == Run(r.(next := last), more)
    decreases n
  {
    if n == 0 {
      assert Churn(r.next, d, n) + more == more;
    } else {
      ChurnRound(r, d, n, more);
      ChurnAdvances(r.(next := Add32(r.next, 1)), d, n - 1, last, more);
    }
  }

  /** Register one device and keep it, and use up the id counter on others. */
  function UseUpCounter(d: Device): seq<Call> {
    [Register(d)] + Churn(2, d, MODULUS - 2)
  }

  lemma CounterUsedUp(d: Device, capacity: nat, more: seq<Call>)
    requires capacity >= 2
    ensures Run(Registry([], 1, capacity), UseUpCounter(d) + more)
         == Run(Registry([d.(id := 1)], 0, capacity), more)
  {
    var r := Registry([d.(id := 1)], 2, capacity);
    var n: nat := MODULUS - 2;
    var calls := UseUpCounter(d) + more;
    assert Step(Registry([], 1, capacity), calls[0]).0 == r;
    assert calls[1..] == Churn(2, d, n) + more;
    ChurnAdvances(r, d, n, 0, more);
  }

  /** The next device then gets id 0, which also reports failure, and stands after id 1. */
  lemma CounterWrapBreaksOrder(d: Device, capacity: nat)
    requires capacity >= 2
    ensures var r := Run(Registry([], 1, capacity), UseUpCounter(d) + [Register(d)]);
            r.ds == [d.(id := 1), d.(id := 0)] && !Ordered(r.ds)
  {
    CounterUsedUp(d, capacity, [Register(d)]);
    var q := Registry([d.(id := 1)], 0, capacity);
    assert Run(q, [Register(d)]) == Run(Step(q, Register(d)).0, []);
    var ds := Step(q, Register(d)).0.ds;
    assert ds == [d.(id := 1), d.(id := 0)];
    assert ds[0].id == 1 && ds[1].id == 0;
  }

  /** Once id 0 is free again, the next device gets the id of the one that was kept. */
  lemma CounterWrapRepeatsId(d: Device, capacity: nat)
    requires capacity >= 2
    ensures var r := Run(Registry([], 1, capacity), UseUpCounter(d) + [Register(d), Unregister(0), Register(d)]);
            r.ds == [d.(id := 1), d.(id := 1)] && !Distinct(r.ds)
  {
    var q := Registry([d.(id := 1)], 0, capacity);
    CounterUsedUp(d, capacity, [Register(d), Unregister(0), Register(d)]);
    assert [Register(d), Unregister(0), Register(d)] == [Register(d), Unregister(0)] + [Register(d)];
    RunTwo(q, Register(d), Unregister(0), [Register(d)]);
    var b := Step(Step(q, Register(d)).0, Unregister(0)).0;
    assert Without([d.(id := 1), d.(id := 0)], 0) == [d.(id := 1)] by {
      WithoutFirst([d.(id := 1), d.(id := 0)], 1);
    }
    assert b == Registry([d.(id := 1)], 1, capacity);
    assert Run(b, [Register(d)]) == Run(Step(b, Register(d)).0, []);
    var ds := Step(b, Register(d)).0.ds;
    assert ds == [d.(id := 1), d.(id := 1)];
    assert ds[0].id == ds[1].id;
  }

  // ---------- The registry in memory ----------

  /** `r` is the smallest id of a device that matches, or 0 when none does. */
  ghost predicate Smallest(ds: seq<Device>, r: Word, matches: Device -> bool) {
    if exists d :: d in ds && matches(d)
    then (exists d :: d in ds && matches(d) && d.id == r) && (forall d :: d in ds && matches(d) ==> r <= d.id)
    else r == 0
  }

  /** Index of the first device that matches, or the length of the list when none does. */
  function FirstMatch(ds: seq<Device>, matches: Device -> bool): (i: nat)
    ensures i <= |ds|
    ensures i < |ds| ==> matches(ds[i])
    ensures forall k :: 0 <= k < i ==> !matches(ds[k])
  {
    if ds == [] || matches(ds[0]) then 0 else 1 + FirstMatch(ds[1..], matches)
  }

  /** Its id, or 0 when there is none. */
  function FirstId(ds: seq<Device>, matches: Device -> bool): Word {
    var i := FirstMatch(ds, matches);
    if i < |ds| then ds[i].id else 0
  }

  /** In an ordered list the first match has the smallest id. */
  lemma FirstIsSmallest(ds: seq<Device>, matches: Device -> bool)
    requires Ordered(ds)
    ensures Smallest(ds, FirstId(ds, matches), matches)
  {
    var i := FirstMatch(ds, matches);
    if i < |ds| {
      assert ds[i] in ds && matches(ds[i]);
      forall d | d in ds && matches(d) ensures ds[i].id <= d.id {
        var k :| 0 <= k < |ds| && ds[k] == d;
        assert k >= i;
      }
    }
  }

  function HasId(id: Word): Device -> bool { (d: Device) => d.id == id }
  function HasType(deviceType: nat): Device -> bool { (d: Device) => d.deviceType == deviceType }
  function HasMajor(major: Word): Device -> bool { (d: Device) => d.major == major }
  function HasName(name: CString): Device -> bool { (d: Device) => Named(d.name, name) }

  lemma FoundById(ds: seq<Device>, id: Word)
    ensures FirstMatch(ds, HasId(id)) < |ds| <==> id in Ids(ds)
  {
    var i := FirstMatch(ds, HasId(id));
    if i < |ds| {
      assert ds[i] in ds;
    }
  }

  class DeviceManager {
    const devices: array<Device>
    var deviceCount: nat
    var nextId: Word

    function Live(): seq<Device>
      requires deviceCount <= devices.Length
      reads this, devices
    {
      devices[..deviceCount]
    }

    function State(): Registry
      requires deviceCount <= devices.Length
      reads this, devices
    {
      Registry(Live(), nextId, devices.Length)
    }

    predicate Shaped()
      reads this, devices
    {
      && deviceCount <= devices.Length
      && (forall i :: 0 <= i < devices.Length ==> |devices[i].name| == NAME_LENGTH)
    }

    predicate Valid()
      reads this, devices
    {
      Shaped() && Ordered(Live())
    }

    constructor (capacity: nat)
      ensures Valid() && State() == Registry([], 1, capacity) && fresh(devices)
    {
      devices := new Device[capacity](_ => Device(0, 0, 0, 0, seq(NAME_LENGTH, _ => '\0'), 0, 0));
      deviceCount, nextId := 0, 1;
    }

    /** A NULL name acts as the empty one. The list stays ordered exactly when it was full or empty or the next id
        exceeds the last live one, and ids stay unique exactly when it was full or the next id is not live. */
    method Register(name: CString, deviceType: nat, major: Word, minor: Word) returns (id: Word)
      requires Shaped()
      modifies this, devices
      ensures Shaped()
      ensures old(deviceCount) == devices.Length ==> id == 0 && State() == old(State())
      ensures old(deviceCount) < devices.Length ==>
        && deviceCount == old(deviceCount) + 1
        && id == old(nextId) && nextId == (old(nextId) + 1) % 0x1_0000_0000
        && Live()[..deviceCount - 1] == old(Live())
        && devices[deviceCount - 1] == Device(id, deviceType, major, minor, devices[deviceCount - 1].name, 0, 0)
        && Text(devices[deviceCount - 1].name) == (if |name| <= 128 then name else name[..128])
        && (State(), id) == Step(old(State()), Call.Register(devices[deviceCount - 1]))
      ensures old(Valid()) ==>
        (Valid() <==> old(deviceCount) == devices.Length || old(deviceCount) == 0
                      || old(nextId) > old(Live())[old(deviceCount) - 1].id)
      ensures old(Distinct(Live())) ==>
        (Distinct(Live()) <==> old(deviceCount) == devices.Length || old(nextId) !in Ids(old(Live())))
    {
      if deviceCount >= devices.Length { return 0; }
      ghost var ds := Live();
      id := nextId;
      nextId := Add32(nextId, 1);
      var buffer := CopyName(devices[deviceCount].name, name);
      devices[deviceCount] := Device(id, deviceType, major, minor, buffer, 0, 0);
      deviceCount := deviceCount + 1;
      assert Live() == ds + [devices[deviceCount - 1]];
      if Ordered(ds) { OrderAfterAppend(ds, devices[deviceCount - 1]); }
      if Distinct(ds) { UniqueAfterAppend(ds, devices[deviceCount - 1]); }
    }

    /** The scan by id. */
    method IndexOf(id: Word) returns (i: nat)
      requires Shaped()
      ensures i == FirstMatch(Live(), HasId(id))
      ensures i < deviceCount <==> id in Ids(Live())
    {
      FoundById(Live(), id);
      i := 0;
      while i < deviceCount
        invariant i <= deviceCount
        invariant forall k :: 0 <= k < i ==> devices[k].id != id
      {
        if devices[i].id == id { return; }
        i := i + 1;
      }
    }

    /** The shift loop takes out exactly entry `i`. */
    method ShiftDown(i: nat)
      requires i < deviceCount <= devices.Length
      requires forall k :: 0 <= k < devices.Length ==> |devices[k].name| == NAME_LENGTH
      modifies this`deviceCount, devices
      ensures deviceCount == old(deviceCount) - 1
      ensures Live() == old(Live()[..i] + Live()[i + 1..])
      ensures forall k :: 0 <= k < devices.Length ==> |devices[k].name| == NAME_LENGTH
    {
      var j := i;
      while j < deviceCount - 1
        invariant i <= j < deviceCount == old(deviceCount)
        invariant forall k :: i <= k < j ==> devices[k] == old(devices[k + 1])
        invariant forall k :: 0 <= k < devices.Length && !(i <= k < j) ==> devices[k] == old(devices[k])
      {
        devices[j] := devices[j + 1];
        j := j + 1;
      }
      deviceCount := deviceCount - 1;
    }

    /** Takes out the first entry with the id; an ordered list stays ordered. */
    method Unregister(id: Word) returns (ok: bool)
      requires Shaped()
      modifies this`deviceCount, devices
      ensures Shaped() && (old(Valid()) ==> Valid())
      ensures ok <==> exists d :: d in old(Live()) && d.id == id
      ensures (State(), if ok then 1 else 0) == Step(old(State()), Call.Unregister(id))
    {
      var i := IndexOf(id);
      ghost var ds := Live();
      if Ordered(ds) { WithoutId(ds, id); }
      if i == deviceCount {
        WithoutMissing(ds, id);
        return false;
      }
      WithoutFirst(ds, i);
      ShiftDown(i);
      ok := true;
    }

    /** The scan shared by `device_initialize` (status 1, initialize), `device_enable` (status 1) and
        `device_disable` (status 0): only the first device with the id changes, and it keeps its place. */
    method SetStatus(id: Word, status: nat, initialize: bool) returns (ok: bool)
      requires Shaped()
      modifies devices
      ensures Shaped() && (Valid() <==> old(Valid()))
      ensures ok <==> exists d :: d in old(Live()) && d.id == id
      ensures !ok ==> Live() == old(Live())
      ensures ok ==>
        var ds, i := old(Live()), FirstMatch(old(Live()), HasId(id));
        && i < |ds| && ds[i].id == id && (forall k :: 0 <= k < i ==> ds[k].id != id)
        && Live() == ds[i := ds[i].(status := status, initialized := if initialize then 1 else ds[i].initialized)]
    {
      var i := IndexOf(id);
      if i == deviceCount { return false; }
      ghost var ds := Live();
      if initialize {
        devices[i] := devices[i].(initialized := 1);
      }
      devices[i] := devices[i].(status := status);
      OrderedUpdate(ds, i, devices[i]);
      assert Live() == ds[i := devices[i]];
      ok := true;
    }

    method FindByType(deviceType: nat) returns (r: Word)
      requires Shaped()
      ensures var ds, i := Live(), FirstMatch(Live(), HasType(deviceType));
              && r == (if i < |ds| then ds[i].id else 0)
              && (i < |ds| ==> ds[i].deviceType == deviceType)
              && (forall k :: 0 <= k < i ==> ds[k].deviceType != deviceType)
      ensures Valid() ==> Smallest(Live(), r, HasType(deviceType))
    {
      if Ordered(Live()) { FirstIsSmallest(Live(), HasType(deviceType)); }
      var i := 0;
      while i < deviceCount
        invariant i <= deviceCount
        invariant forall k :: 0 <= k < i ==> devices[k].deviceType != deviceType
      {
        if devices[i].deviceType == deviceType {
          assert i == FirstMatch(Live(), HasType(deviceType));
          return devices[i].id;
        }
        i := i + 1;
      }
      return 0;
    }

    method FindByMajor(major: Word) returns (r: Word)
      requires Shaped()
      ensures var ds, i := Live(), FirstMatch(Live(), HasMajor(major));
              && r == (if i < |ds| then ds[i].id else 0)
              && (i < |ds| ==> ds[i].major == major)
              && (forall k :: 0 <= k < i ==> ds[k].major != major)
      ensures Valid() ==> Smallest(Live(), r, HasMajor(major))
    {
      if Ordered(Live()) { FirstIsSmallest(Live(), HasMajor(major)); }
      var i := 0;
      while i < deviceCount
        invariant i <= deviceCount
        invariant forall k :: 0 <= k < i ==> devices[k].major != major
      {
        if devices[i].major == major {
          assert i == FirstMatch(Live(), HasMajor(major));
          return devices[i].id;
        }
        i := i + 1;
      }
      return 0;
    }

    /** The scan by name: names are compared up to the terminator or 128 characters. */
    method ScanNames(name: CString) returns (i: nat)
      requires Shaped()
      ensures i == FirstMatch(Live(), HasName(name))
    {
      i := 0;
      while i < deviceCount
        invariant i <= deviceCount
        invariant forall k :: 0 <= k < i ==> !Named(devices[k].name, name)
      {
        var same := SameName(devices[i].name, name);
        assert same <==> HasName(name)(Live()[i]);
        if same { return; }
        i := i + 1;
      }
    }

    method FindByName(name: CString) returns (r: Word)
      requires Shaped()
      ensures var ds, i, text := Live(), FirstMatch(Live(), HasName(name)), if |name| <= 128 then name else name[..128];
              && r == (if i < |ds| then ds[i].id else 0)
              && (i < |ds| ==> Text(ds[i].name) == text)
              && (forall k :: 0 <= k < i ==> Text(ds[k].name) != text)
      ensures Valid() ==> Smallest(Live(), r, HasName(name))
    {
      if Ordered(Live()) { FirstIsSmallest(Live(), HasName(name)); }
      var i := ScanNames(name);
      return if i < deviceCount then devices[i].id else 0;
    }
  }
}
