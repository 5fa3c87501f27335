/**
The runtime stand: construction with one device per physical id, connecting with rollback, and
closing that attempts every device. What each device answers is free; the log records it.
*/
module Stand {
  import opened Sequences

  // ----- Each value once, in order of first occurrence -----

  /** Python's tuple(dict.fromkeys(values)). */
  function Unique<T(==)>(values: seq<T>): seq<T> {
    if values == [] then []
    else
      var prior, last := values[..|values| - 1], values[|values| - 1];
      if last in prior then Unique(prior) else Unique(prior) + [last]
  }

  /** The positions of the values that have not occurred before. */
  function FirstPositions<T(==)>(values: seq<T>): seq<nat> {
    if values == [] then []
    else
      var prior, last := values[..|values| - 1], values[|values| - 1];
      if last in prior then FirstPositions(prior) else FirstPositions(prior) + [|prior|]
  }

  predicate Increasing(s: seq<nat>) { forall i, j :: 0 <= i < j < |s| ==> s[i] < s[j] }

  lemma UniqueSnoc<T>(values: seq<T>, x: T)
    ensures Unique(values + [x]) == if x in values then Unique(values) else Unique(values) + [x]
  {
    assert (values + [x])[..|values|] == values;
  }

  /** Unique keeps the same values, each of them once, where it first occurs. */
  lemma {:induction false} UniqueKeepsFirstOccurrences<T>(values: seq<T>)
    ensures Distinct(Unique(values))
    ensures forall x :: x in Unique(values) <==> x in values
    ensures Increasing(FirstPositions(values)) && |FirstPositions(values)| == |Unique(values)|
    ensures forall k :: 0 <= k < |Unique(values)| ==>
      var p := FirstPositions(values)[k];
      p < |values| && values[p] == Unique(values)[k] && values[p] !in values[..p]
  {
    if values != [] {
      var prior, last := values[..|values| - 1], values[|values| - 1];
      UniqueKeepsFirstOccurrences(prior);
      assert values == prior + [last];
      forall p | 0 <= p <= |prior|
        ensures values[..p] == prior[..p]
      {
      }
    }
  }

  predicate SamePattern<S(==), T(==)>(a: seq<S>, b: seq<T>) {
    |a| == |b| && forall i, j :: 0 <= i < |a| && 0 <= j < |a| ==> (a[i] == a[j] <==> b[i] == b[j])
  }

  lemma {:induction false} SamePatternSamePositions<S, T>(a: seq<S>, b: seq<T>)
    requires SamePattern(a, b)
    ensures FirstPositions(a) == FirstPositions(b)
  {
    if a != [] {
      var n := |a| - 1;
      SamePatternSamePositions(a[..n], b[..n]);
      if a[n] in a[..n] {
        var i :| 0 <= i < n && a[i] == a[n];
        assert b[i] == b[n] && b[i] in b[..n];
      }
      if b[n] in b[..n] {
        var i :| 0 <= i < n && b[i] == b[n];
        assert a[i] == a[n] && a[i] in a[..n];
      }
    }
  }

  function Reversed<T>(s: seq<T>): (r: seq<T>)
    ensures |r| == |s|
    ensures forall i :: 0 <= i < |s| ==> r[i] == s[|s| - 1 - i]
  {
    seq(|s|, i requires 0 <= i < |s| => s[|s| - 1 - i])
  }

  // ----- Devices and what happens to them -----

  /** A device object; two of them may be built from equal configurations. */
  class Device {
    const model: string

    constructor (model: string)
      ensures this.model == model
    {
      this.model := model;
    }
  }

  datatype Error = Error(code: int)

  datatype Event = Connecting(device: Device, error: Option<Error>) | Closing(device: Device, error: Option<Error>)

  function Connects(devices: seq<Device>): (r: seq<Event>)
    ensures |r| == |devices|
    ensures forall i :: 0 <= i < |r| ==> r[i] == Connecting(devices[i], None)
  {
    seq(|devices|, i requires 0 <= i < |devices| => Connecting(devices[i], None))
  }

  function Closes(devices: seq<Device>): (r: seq<Event>)
    ensures |r| == |devices|
    ensures forall i :: 0 <= i < |r| ==> r[i] == Closing(devices[i], None)
  {
    seq(|devices|, i requires 0 <= i < |devices| => Closing(devices[i], None))
  }

  /** Every device closed in this order; or the closes up to and including the first that raised. */
  predicate ClosesUntilError(devices: seq<Device>, trace: seq<Event>, cause: Option<Error>, r: Option<Error>) {
    || (trace == Closes(devices) && r == cause)
    || (exists j :: 0 <= j < |devices| && CloseFailedAt(devices, trace, j, r))
  }

  predicate CloseFailedAt(devices: seq<Device>, trace: seq<Event>, j: nat, r: Option<Error>)
    requires j < |devices|
  {
    r.Some? && trace == Closes(devices[..j]) + [Closing(devices[j], r)]
  }

  /** The k-th connect raised, and the earlier devices were closed again, the last one first. */
  predicate ConnectFailedAt(devices: seq<Device>, trace: seq<Event>, k: nat, cause: Option<Error>, r: Option<Error>)
    requires k < |devices|
  {
    && cause.Some?
    && |trace| > k
    && trace[..k + 1] == Connects(devices[..k]) + [Connecting(devices[k], cause)]
    && ClosesUntilError(Reversed(devices[..k]), trace[k + 1..], cause, r)
  }

  ghost predicate ConnectTrace(devices: seq<Device>, trace: seq<Event>, r: Option<Error>) {
    || (trace == Connects(devices) && r == None)
    || (exists k, cause :: 0 <= k < |devices| && ConnectFailedAt(devices, trace, k, cause, r))
  }

  /** One attempt for each device, in this order. */
  predicate CloseAttempts(devices: seq<Device>, trace: seq<Event>) {
    |trace| == |devices| && forall i :: 0 <= i < |trace| ==> trace[i].Closing? && trace[i].device == devices[i]
  }

  function FirstError(trace: seq<Event>): (r: Option<Error>)
    ensures r.None? <==> forall i :: 0 <= i < |trace| ==> trace[i].error.None?
    ensures r.Some? ==> (exists i :: 0 <= i < |trace| && FirstErrorAt(trace, i, r))
  {
    if trace == [] then None
    else
      var earlier := FirstError(trace[..|trace| - 1]);
      if earlier.None? && trace[|trace| - 1].error.Some? then
        assert FirstErrorAt(trace, |trace| - 1, trace[|trace| - 1].error) by {
          assert forall k :: 0 <= k < |trace| - 1 ==> trace[k] == trace[..|trace| - 1][k];
        }
        trace[|trace| - 1].error
      else
        assert earlier.Some? ==> (exists i :: 0 <= i < |trace| && FirstErrorAt(trace, i, earlier)) by {
          if earlier.Some? {
            var i :| 0 <= i < |trace| - 1 && FirstErrorAt(trace[..|trace| - 1], i, earlier);
            assert FirstErrorAt(trace, i, earlier) by {
              assert forall k :: 0 <= k <= i ==> trace[k] == trace[..|trace| - 1][k];
            }
          }
        }
        earlier
  }

  predicate FirstErrorAt(trace: seq<Event>, i: nat, r: Option<Error>)
    requires i < |trace|
  {
    trace[i].error == r && forall k :: 0 <= k < i ==> trace[k].error.None?
  }

  lemma FirstErrorSnoc(trace: seq<Event>, event: Event)
    ensures FirstError(trace + [event]) == if FirstError(trace).Some? then FirstError(trace) else event.error
  {
    assert (trace + [event])[..|trace|] == trace;
  }

  lemma RollbackFollows(
    devices: seq<Device>, k: nat, before: seq<Event>, failed: seq<Event>, after: seq<Event>,
    cause: Option<Error>, r: Option<Error>
  )
    requires k < |devices| && cause.Some?
    requires failed == before + Connects(devices[..k]) + [Connecting(devices[k], cause)] && failed <= after
    requires ClosesUntilError(Reversed(devices[..k]), after[|failed|..], cause, r)
    ensures before <= after && ConnectTrace(devices, after[|before|..], r)
  {
    hide ClosesUntilError;
    var trace := after[|before|..];
    assert trace[k + 1..] == after[|failed|..];
    assert trace[..k + 1] == Connects(devices[..k]) + [Connecting(devices[k], cause)];
    assert ConnectFailedAt(devices, trace, k, cause, r);
  }

  datatype Assignment = Assignment(role: string, device: Device)

  function DevicesOf(assignments: seq<Assignment>): (r: seq<Device>)
    ensures |r| == |assignments|
    ensures forall i :: 0 <= i < |r| ==> r[i] == assignments[i].device
  {
    seq(|assignments|, i requires 0 <= i < |assignments| => assignments[i].device)
  }

  class TestStand {
    const devices: seq<Assignment>
    var log: seq<Event>

    constructor (devices: seq<Assignment>)
      ensures this.devices == devices && log == []
    {
      this.devices, log := devices, [];
    }

    function UniqueDevices(): seq<Device> {
      Unique(DevicesOf(devices))
    }

    method ConnectDevice(device: Device) returns (error: Option<Error>)
      modifies this`log
      ensures log == old(log) + [Connecting(device, error)]
    {
      error := *;
      log := log + [Connecting(device, error)];
    }

    method CloseDevice(device: Device) returns (error: Option<Error>)
      modifies this`log
      ensures log == old(log) + [Closing(device, error)]
    {
      error := *;
      log := log + [Closing(device, error)];
    }

    /** Connect every device once; when one connect raises, close those that were connected. */
    method Connect() returns (r: Option<Error>)
      modifies this`log
      ensures old(log) <= log && ConnectTrace(UniqueDevices(), log[|old(log)|..], r)
    {
      hide ConnectFailedAt, ClosesUntilError, Unique;
      var devices := UniqueDevices();
      var connected: seq<Device> := [];
      for i := 0 to |devices|
        invariant connected == devices[..i]
        invariant log == old(log) + Connects(connected)
      {
        var error := ConnectDevice(devices[i]);
        if error.Some? {
          ghost var failed := log;
          r := Rollback(connected, error);
          RollbackFollows(devices, i, old(log), failed, log, error, r);
          return;
        }
        connected := connected + [devices[i]];
        assert Connects(connected) == Connects(devices[..i]) + [Connecting(devices[i], None)];
      }
      assert connected == devices;
      r := None;
    }

    /** The cleanup of a failed connect: its first error replaces the cause and ends it. */
    method Rollback(connected: seq<Device>, cause: Option<Error>) returns (r: Option<Error>)
      modifies this`log
      ensures old(log) <= log
      ensures ClosesUntilError(Reversed(connected), log[|old(log)|..], cause, r)
    {
      var devices := Reversed(connected);
      for i := 0 to |devices|
        invariant log == old(log) + Closes(devices[..i])
      {
        var error := CloseDevice(devices[i]);
        if error.Some? {
          assert CloseFailedAt(devices, log[|old(log)|..], i, error);
          return error;
        }
        assert Closes(devices[..i + 1]) == Closes(devices[..i]) + [Closing(devices[i], None)];
      }
      assert devices[..|devices|] == devices;
      r := cause;
    }

    /** Attempt to close every device, the last one first, and raise the first error afterwards. */
    method Close() returns (r: Option<Error>)
      modifies this`log
      ensures old(log) <= log
      ensures CloseAttempts(Reversed(UniqueDevices()), log[|old(log)|..])
      ensures r == FirstError(log[|old(log)|..])
    {
      var devices := Reversed(UniqueDevices());
      var firstError: Option<Error> := None;
      for i := 0 to |devices|
        invariant old(log) <= log
        invariant CloseAttempts(devices[..i], log[|old(log)|..])
        invariant firstError == FirstError(log[|old(log)|..])
      {
        ghost var earlier := log[|old(log)|..];
        var error := CloseDevice(devices[i]);
        assert log[|old(log)|..] == earlier + [Closing(devices[i], error)];
        FirstErrorSnoc(earlier, Closing(devices[i], error));
        firstError := if firstError.Some? then firstError else error;
      }
      assert devices[..|devices|] == devices;
      r := firstError;
    }
  }

  // ----- Which devices a trace leaves connected -----

  /** A device is connected from a connect that returns until a close that returns. */
  function Live(start: set<Device>, trace: seq<Event>): set<Device> {
    if trace == [] then start
    else
      var before, event := Live(start, trace[..|trace| - 1]), trace[|trace| - 1];
      if event.error.Some? then before
      else if event.Connecting? then before + {event.device}
      else before - {event.device}
  }

  function ToSet<T>(s: seq<T>): set<T> { set x | x in s }

  lemma {:induction false} LiveConcat(start: set<Device>, a: seq<Event>, b: seq<Event>)
    ensures Live(start, a + b) == Live(Live(start, a), b)
  {
    if b == [] {
      assert a + b == a;
    } else {
      assert (a + b)[..|a + b| - 1] == a + b[..|b| - 1];
      LiveConcat(start, a, b[..|b| - 1]);
    }
  }

  lemma {:induction false} LiveConnects(start: set<Device>, devices: seq<Device>)
    ensures Live(start, Connects(devices)) == start + ToSet(devices)
  {
    if devices != [] {
      var prior := devices[..|devices| - 1];
      LiveConnects(start, prior);
      assert Connects(devices)[..|prior|] == Connects(prior);
      assert devices == prior + [devices[|prior|]];
    }
  }

  lemma {:induction false} LiveCloses(start: set<Device>, devices: seq<Device>)
    ensures Live(start, Closes(devices)) == start - ToSet(devices)
  {
    if devices != [] {
      var prior := devices[..|devices| - 1];
      LiveCloses(start, prior);
      assert Closes(devices)[..|prior|] == Closes(prior);
      assert devices == prior + [devices[|prior|]];
    }
  }

  predicate NoCloseRaises(trace: seq<Event>) {
    forall i :: 0 <= i < |trace| && trace[i].Closing? ==> trace[i].error.None?
  }

  lemma CloseFailedShows(devices: seq<Device>, trace: seq<Event>, j: nat, r: Option<Error>)
    requires j < |devices|
    ensures CloseFailedAt(devices, trace, j, r) ==> !NoCloseRaises(trace)
  {
    if CloseFailedAt(devices, trace, j, r) {
      assert trace[j] == Closing(devices[j], r);
    }
  }

  predicate CleanRollbackAt(devices: seq<Device>, trace: seq<Event>, k: nat, r: Option<Error>)
    requires k < |devices|
  {
    trace == Connects(devices[..k]) + [Connecting(devices[k], r)] + Closes(Reversed(devices[..k]))
  }

  /**
  Connecting is all or nothing as long as no close raises: without an error every device is connected,
  with one the earlier devices were closed once each in reverse and none is left connected.
  */
  lemma ConnectIsAllOrNothing(devices: seq<Device>, trace: seq<Event>, r: Option<Error>)
    requires ConnectTrace(devices, trace, r) && NoCloseRaises(trace)
    ensures r.None? ==> Live({}, trace) == ToSet(devices)
    ensures r.Some? ==> Live({}, trace) == {}
    ensures r.Some? ==> (exists k :: 0 <= k < |devices| && CleanRollbackAt(devices, trace, k, r))
  {
    hide Live, ClosesUntilError, NoCloseRaises;
    if trace == Connects(devices) && r == None {
      LiveConnects({}, devices);
    } else {
      var k, cause :| 0 <= k < |devices| && ConnectFailedAt(devices, trace, k, cause, r);
      var earlier, rest := devices[..k], trace[k + 1..];
      NoCloseRaisesAfter(trace, k + 1);
      CleanCloses(Reversed(earlier), rest, cause, r);
      assert trace == trace[..k + 1] + rest;
      assert CleanRollbackAt(devices, trace, k, r);
      LiveAfterRollback(earlier, devices[k], r, rest);
      LiveCloses(ToSet(earlier), Reversed(earlier));
      ReversedMembers(earlier);
    }
  }

  lemma NoCloseRaisesAfter(trace: seq<Event>, k: nat)
    requires NoCloseRaises(trace) && k <= |trace|
    ensures NoCloseRaises(trace[k..])
  {
  }

  lemma CleanCloses(devices: seq<Device>, trace: seq<Event>, cause: Option<Error>, r: Option<Error>)
    requires ClosesUntilError(devices, trace, cause, r) && NoCloseRaises(trace)
    ensures trace == Closes(devices) && r == cause
  {
    forall j | 0 <= j < |devices|
      ensures CloseFailedAt(devices, trace, j, r) ==> !NoCloseRaises(trace)
    {
      CloseFailedShows(devices, trace, j, r);
    }
  }

  lemma LiveAfterRollback(earlier: seq<Device>, device: Device, cause: Option<Error>, rest: seq<Event>)
    requires cause.Some?
    ensures Live({}, Connects(earlier) + [Connecting(device, cause)] + rest) == Live(ToSet(earlier), rest)
  {
    var failed := Connects(earlier) + [Connecting(device, cause)];
    LiveConcat({}, failed, rest);
    assert failed[..|failed| - 1] == Connects(earlier);
    LiveConnects({}, earlier);
    assert Live({}, failed) == ToSet(earlier);
  }

  lemma ReversedMembers<T>(s: seq<T>)
    ensures ToSet(Reversed(s)) == ToSet(s)
  {
    forall x | x in s
      ensures x in Reversed(s)
    {
      var i :| 0 <= i < |s| && s[i] == x;
      assert Reversed(s)[|s| - 1 - i] == x;
    }
  }

  /**
  A close that raises during the rollback hides the cause and ends it: the failing device and those
  connected before it stay connected, so the guarantee above needs closes that do not raise.
  */
  lemma RollbackStopsAtARaisingClose(devices: seq<Device>, k: nat, j: nat, cause: Error, second: Error)
    requires Distinct(devices) && j < k < |devices|
    ensures
      var trace := Connects(devices[..k]) + [Connecting(devices[k], Some(cause))]
        + (Closes(Reversed(devices[..k])[..j]) + [Closing(devices[k - 1 - j], Some(second))]);
      ConnectTrace(devices, trace, Some(second)) && Live({}, trace) == ToSet(devices[..k - j])
  {
    var earlier := devices[..k];
    var reversed := Reversed(earlier);
    var rest := Closes(reversed[..j]) + [Closing(reversed[j], Some(second))];
    var trace := Connects(earlier) + [Connecting(devices[k], Some(cause))] + rest;
    assert trace[k + 1..] == rest;
    assert CloseFailedAt(reversed, rest, j, Some(second));
    assert ConnectFailedAt(devices, trace, k, Some(cause), Some(second));
    LiveAfterRollback(earlier, devices[k], Some(cause), rest);
    assert rest[..j] == Closes(reversed[..j]);
    LiveCloses(ToSet(earlier), reversed[..j]);
    assert reversed[..j] == Reversed(devices[k - j..k]) by {
      assert |Reversed(devices[k - j..k])| == j;
    }
    ReversedMembers(devices[k - j..k]);
    assert earlier[..k - j] == devices[..k - j] && earlier[k - j..] == devices[k - j..k];
    DistinctParts(earlier, k - j);
  }

  lemma DistinctParts<T>(s: seq<T>, n: nat)
    requires Distinct(s) && n <= |s|
    ensures ToSet(s) - ToSet(s[n..]) == ToSet(s[..n])
  {
    assert s == s[..n] + s[n..];
  }

  /**
  The exact condition, for whatever the devices do: a connect that raises leaves no device connected if
  and only if no close raised during the rollback.
  */
  lemma NothingConnectedExactly(devices: seq<Device>, trace: seq<Event>, r: Option<Error>)
    requires Distinct(devices) && ConnectTrace(devices, trace, r) && r.Some?
    ensures Live({}, trace) == {} <==> NoCloseRaises(trace)
  {
    hide Live, NoCloseRaises, ClosesUntilError, CloseFailedAt;
    if NoCloseRaises(trace) {
      ConnectIsAllOrNothing(devices, trace, r);
    } else {
      var k, cause :| 0 <= k < |devices| && ConnectFailedAt(devices, trace, k, cause, r);
      var reversed, rest := Reversed(devices[..k]), trace[k + 1..];
      FailedCleanup(devices, trace, k, reversed, rest, cause, r);
      var j :| 0 <= j < |reversed| && CloseFailedAt(reversed, rest, j, r);
      RaisingCleanup(devices, trace, k, reversed, rest, cause, r, j);
    }
  }

  /** A failed connect in which some close raised is one whose rollback ended there. */
  lemma FailedCleanup(devices: seq<Device>, trace: seq<Event>, k: nat, reversed: seq<Device>, rest: seq<Event>,
                      cause: Option<Error>, r: Option<Error>)
    requires k < |devices| && ConnectFailedAt(devices, trace, k, cause, r) && !NoCloseRaises(trace)
    requires reversed == Reversed(devices[..k]) && rest == trace[k + 1..]
    ensures exists j :: 0 <= j < |reversed| && CloseFailedAt(reversed, rest, j, r)
  {
    hide CloseFailedAt;
    var failed := trace[..k + 1];
    assert trace == failed + rest;
    assert NoCloseRaises(failed);
    NoCloseRaisesConcat(failed, rest);
    assert rest != Closes(reversed);
  }

  lemma RaisingCleanup(devices: seq<Device>, trace: seq<Event>, k: nat, reversed: seq<Device>, rest: seq<Event>,
                       cause: Option<Error>, r: Option<Error>, j: nat)
    requires Distinct(devices) && k < |devices| && ConnectFailedAt(devices, trace, k, cause, r)
    requires reversed == Reversed(devices[..k]) && rest == trace[k + 1..]
    requires j < |reversed| && CloseFailedAt(reversed, rest, j, r)
    ensures Live({}, trace) == ToSet(devices[..k - j]) != {}
  {
    hide Live, NoCloseRaises, ClosesUntilError, Distinct, ConnectTrace;
    RollbackStopsAtARaisingClose(devices, k, j, cause.value, r.value);
    assert trace == trace[..k + 1] + rest;
    assert rest == Closes(reversed[..j]) + [Closing(devices[k - 1 - j], Some(r.value))];
    assert devices[..k - j][0] in ToSet(devices[..k - j]);
  }

  lemma NoCloseRaisesConcat(a: seq<Event>, b: seq<Event>)
    ensures NoCloseRaises(a + b) <==> NoCloseRaises(a) && NoCloseRaises(b)
  {
    assert forall i :: 0 <= i < |a| ==> (a + b)[i] == a[i];
    assert forall i :: 0 <= i < |b| ==> (a + b)[|a| + i] == b[i];
  }

  /** Closing disconnects every device except those whose own close raised. */
  lemma {:induction false} CloseLeavesOnlyFailures(start: set<Device>, devices: seq<Device>, trace: seq<Event>)
    requires Distinct(devices) && CloseAttempts(devices, trace)
    ensures forall d :: d in Live(start, trace) <==>
      d in start && forall i :: 0 <= i < |trace| && trace[i].device == d ==> trace[i].error.Some?
  {
    if trace != [] {
      var n := |trace| - 1;
      CloseLeavesOnlyFailures(start, devices[..n], trace[..n]);
      assert trace == trace[..n] + [trace[n]];
    }
  }

  // ----- Building the stand -----

  datatype Config = Config(model: string)

  /** A role of the stand configuration and the physical device id assigned to it. */
  datatype Role = Role(name: string, physicalId: string)

  function IdsOf(roles: seq<Role>): (r: seq<string>)
    ensures |r| == |roles|
    ensures forall i :: 0 <= i < |r| ==> r[i] == roles[i].physicalId
  {
    seq(|roles|, i requires 0 <= i < |roles| => roles[i].physicalId)
  }

  datatype Creation =
    | Created(devices: seq<Assignment>)
    | UnknownDevice(physicalId: string)
    | FactoryFailed(error: Error)

  predicate Sharing(assignments: seq<Assignment>, roles: seq<Role>) {
    && |assignments| == |roles|
    && (forall i :: 0 <= i < |roles| ==> assignments[i].role == roles[i].name)
    && SamePattern(DevicesOf(assignments), IdsOf(roles))
  }

  /** The devices built so far: one for each physical id, and different ones for different ids. */
  predicate OnePerId(physical: map<string, Device>) {
    forall a, b :: a in physical && b in physical && physical[a] == physical[b] ==> a == b
  }

  predicate Assigned(assignments: seq<Assignment>, physical: map<string, Device>, roles: seq<Role>) {
    && |assignments| == |roles|
    && forall k :: 0 <= k < |roles| ==>
      && roles[k].physicalId in physical
      && assignments[k] == Assignment(roles[k].name, physical[roles[k].physicalId])
  }

  /** The devices built for these roles, all of them from their own inventory entries. */
  ghost predicate BuiltFor(physical: map<string, Device>, inventory: map<string, Config>, roles: seq<Role>) {
    && OnePerId(physical)
    && (forall id :: id in physical <==> id in IdsOf(roles))
    && (forall id :: id in physical ==> id in inventory && physical[id].model == inventory[id].model)
  }

  predicate Buildable(inventory: map<string, Config>, failing: Config -> Option<Error>, id: string) {
    id in inventory && failing(inventory[id]).None?
  }

  /** The first role whose device cannot be built. */
  predicate StopsAt(inventory: map<string, Config>, failing: Config -> Option<Error>, roles: seq<Role>, i: nat)
    requires i < |roles|
  {
    && !Buildable(inventory, failing, roles[i].physicalId)
    && forall k :: 0 <= k < i ==> Buildable(inventory, failing, roles[k].physicalId)
  }

  /** What is reported for the role at which the construction stops. */
  function Report(inventory: map<string, Config>, failing: Config -> Option<Error>, id: string): Creation
    requires !Buildable(inventory, failing, id)
  {
    if id !in inventory then UnknownDevice(id) else FactoryFailed(failing(inventory[id]).value)
  }

  lemma BuiltAndAssigned(
    assignments: seq<Assignment>, physical: map<string, Device>, inventory: map<string, Config>, roles: seq<Role>
  )
    requires Assigned(assignments, physical, roles) && BuiltFor(physical, inventory, roles)
    ensures Sharing(assignments, roles)
    ensures forall i :: 0 <= i < |roles| ==>
      && assignments[i].device in physical.Values
      && roles[i].physicalId in inventory
      && assignments[i].device.model == inventory[roles[i].physicalId].model
  {
  }

  lemma BuiltIds(physical: map<string, Device>, inventory: map<string, Config>, roles: seq<Role>)
    requires BuiltFor(physical, inventory, roles)
    ensures forall id :: id in physical <==> id in IdsOf(roles)
    ensures forall k :: 0 <= k < |roles| ==> roles[k].physicalId in inventory
  {
    forall k | 0 <= k < |roles|
      ensures roles[k].physicalId in inventory
    {
      assert IdsOf(roles)[k] == roles[k].physicalId;
    }
  }

  /** A role whose id an earlier role has is as buildable as that one. */
  lemma AlreadyBuildable(inventory: map<string, Config>, failing: Config -> Option<Error>, roles: seq<Role>, i: nat)
    requires i < |roles| && roles[i].physicalId in IdsOf(roles[..i])
    requires forall k :: 0 <= k < i ==> Buildable(inventory, failing, roles[k].physicalId)
    ensures Buildable(inventory, failing, roles[i].physicalId)
  {
    var k :| 0 <= k < i && IdsOf(roles[..i])[k] == roles[i].physicalId;
    assert roles[k].physicalId == roles[i].physicalId;
  }

  lemma NothingBuilt(inventory: map<string, Config>, roles: seq<Role>)
    requires roles == []
    ensures BuiltFor(map[], inventory, roles) && Assigned([], map[], roles) && Unique(IdsOf(roles)) == []
    ensures ConfigsOf([], Unique(IdsOf(roles)), inventory)
  {
  }

  lemma BuiltSnoc(
    physical: map<string, Device>, device: Device, inventory: map<string, Config>, roles: seq<Role>, role: Role
  )
    requires BuiltFor(physical, inventory, roles)
    ensures role.physicalId in physical ==> BuiltFor(physical, inventory, roles + [role])
    ensures
      && role.physicalId !in physical
      && device !in physical.Values
      && role.physicalId in inventory
      && device.model == inventory[role.physicalId].model
      ==>
      BuiltFor(physical[role.physicalId := device], inventory, roles + [role])
  {
    assert IdsOf(roles + [role]) == IdsOf(roles) + [role.physicalId];
  }

  lemma AssignedSnoc(
    assignments: seq<Assignment>, physical: map<string, Device>, roles: seq<Role>, role: Role,
    bigger: map<string, Device>
  )
    requires Assigned(assignments, physical, roles)
    requires forall id :: id in physical ==> id in bigger && bigger[id] == physical[id]
    requires role.physicalId in bigger
    ensures Assigned(assignments + [Assignment(role.name, bigger[role.physicalId])], bigger, roles + [role])
  {
  }

  /** These are the configurations of these ids, one for one. */
  predicate ConfigsOf(configs: seq<Config>, ids: seq<string>, inventory: map<string, Config>) {
    && |configs| == |ids|
    && forall k :: 0 <= k < |ids| ==> ids[k] in inventory && configs[k] == inventory[ids[k]]
  }

  /** The construction stopped at the i-th role, and the factory was asked once for each id before it. */
  predicate StoppedAt(
    inventory: map<string, Config>, failing: Config -> Option<Error>, roles: seq<Role>, i: nat, r: Creation,
    asked: seq<Config>
  )
    requires i < |roles|
  {
    var id := roles[i].physicalId;
    && StopsAt(inventory, failing, roles, i)
    && r == Report(inventory, failing, id)
    && ConfigsOf(asked, Unique(IdsOf(roles[..i])) + (if r.UnknownDevice? then [] else [id]), inventory)
  }

  lemma ConfigsSnoc(configs: seq<Config>, ids: seq<string>, inventory: map<string, Config>, id: string)
    requires ConfigsOf(configs, ids, inventory) && id in inventory
    ensures ConfigsOf(configs + [inventory[id]], ids + [id], inventory)
  {
  }

  class StandFactory {
    const failing: Config -> Option<Error>
    ghost var asked: seq<Config>

    constructor (failing: Config -> Option<Error>)
      ensures this.failing == failing && asked == []
    {
      this.failing, asked := failing, [];
    }

    /** The injected factories: a transport and a device around it, unless one of them raises. */
    method BuildDevice(config: Config) returns (device: Device?, error: Option<Error>)
      modifies this
      ensures asked == old(asked) + [config] && error == failing(config)
      ensures error.None? ==> device != null && fresh(device) && device.model == config.model
    {
      asked := asked + [config];
      device, error := null, failing(config);
      if error.None? {
        device := new Device(config.model);
      }
    }

    /**
    Map the roles to devices, asking the factories once for each physical id, in the order of the first
    roles that name them; when a device cannot be built, the first such role decides the error.
    */
    method Create(inventory: map<string, Config>, roles: seq<Role>) returns (r: Creation)
      modifies this
      ensures old(asked) <= asked
      ensures r.Created? <==> forall i :: 0 <= i < |roles| ==> Buildable(inventory, failing, roles[i].physicalId)
      ensures r.Created? ==>
        && Sharing(r.devices, roles)
        && ConfigsOf(asked[|old(asked)|..], Unique(IdsOf(roles)), inventory)
        && (forall i :: 0 <= i < |roles| ==>
          && roles[i].physicalId in inventory
          && fresh(r.devices[i].device)
          && r.devices[i].device.model == inventory[roles[i].physicalId].model)
      ensures !r.Created? ==>
        exists i :: 0 <= i < |roles| && StoppedAt(inventory, failing, roles, i, r, asked[|old(asked)|..])
    {
      hide BuiltFor, Assigned, Unique, Sharing, IdsOf, ConfigsOf, StoppedAt, Report;
      var physical: map<string, Device> := map[];
      var byRole: seq<Assignment> := [];
      ghost var before := asked;
      NothingBuilt(inventory, roles[..0]);
      assert asked[|before|..] == [];
      for i := 0 to |roles|
        invariant BuiltFor(physical, inventory, roles[..i])
        invariant Assigned(byRole, physical, roles[..i])
        invariant forall d :: d in physical.Values ==> fresh(d)
        invariant before <= asked && ConfigsOf(asked[|before|..], Unique(IdsOf(roles[..i])), inventory)
        invariant forall k :: 0 <= k < i ==> Buildable(inventory, failing, roles[k].physicalId)
      {
        var role := roles[i];
        BuiltIds(physical, inventory, roles[..i]);
        NextId(roles, i);
        ghost var smaller := physical;
        if role.physicalId !in physical {
          if role.physicalId !in inventory {
            r := UnknownDevice(role.physicalId);
            ReportIs(inventory, failing, role.physicalId);
            assert Unique(IdsOf(roles[..i])) + [] == Unique(IdsOf(roles[..i]));
            Stopped(inventory, failing, roles, i, r, asked[|before|..]);
            return;
          }
          ghost var configs := asked[|before|..];
          var device, error := BuildDevice(inventory[role.physicalId]);
          assert asked[|before|..] == configs + [inventory[role.physicalId]];
          ConfigsSnoc(configs, Unique(IdsOf(roles[..i])), inventory, role.physicalId);
          if error.Some? {
            r := FactoryFailed(error.value);
            ReportIs(inventory, failing, role.physicalId);
            Stopped(inventory, failing, roles, i, r, asked[|before|..]);
            return;
          }
          BuiltSnoc(physical, device, inventory, roles[..i], role);
          physical := physical[role.physicalId := device];
          assert physical.Values <= smaller.Values + {device};
        } else {
          AlreadyBuildable(inventory, failing, roles, i);
          BuiltSnoc(physical, physical[role.physicalId], inventory, roles[..i], role);
        }
        AssignedSnoc(byRole, smaller, roles[..i], role, physical);
        byRole := byRole + [Assignment(role.name, physical[role.physicalId])];
      }
      assert roles[..|roles|] == roles;
      BuiltAndAssigned(byRole, physical, inventory, roles);
      r := Created(byRole);
    }
  }

  lemma ReportIs(inventory: map<string, Config>, failing: Config -> Option<Error>, id: string)
    requires !Buildable(inventory, failing, id)
    ensures id !in inventory ==> Report(inventory, failing, id) == UnknownDevice(id)
    ensures id in inventory ==> Report(inventory, failing, id) == FactoryFailed(failing(inventory[id]).value)
  {
  }

  lemma NextId(roles: seq<Role>, i: nat)
    requires i < |roles|
    ensures roles[..i + 1] == roles[..i] + [roles[i]]
    ensures
      var ids, id := IdsOf(roles[..i]), roles[i].physicalId;
      Unique(IdsOf(roles[..i + 1])) == if id in ids then Unique(ids) else Unique(ids) + [id]
  {
    hide Unique;
    assert IdsOf(roles[..i + 1]) == IdsOf(roles[..i]) + [roles[i].physicalId];
    UniqueSnoc(IdsOf(roles[..i]), roles[i].physicalId);
  }

  lemma Stopped(
    inventory: map<string, Config>, failing: Config -> Option<Error>, roles: seq<Role>, i: nat, r: Creation,
    asked: seq<Config>
  )
    requires i < |roles| && StopsAt(inventory, failing, roles, i)
    requires r == Report(inventory, failing, roles[i].physicalId)
    requires
      var id := roles[i].physicalId;
      ConfigsOf(asked, Unique(IdsOf(roles[..i])) + (if r.UnknownDevice? then [] else [id]), inventory)
    ensures StoppedAt(inventory, failing, roles, i, r, asked)
  {
  }

  /**
  Roles share a device exactly when they name the same physical id, so the stand connects as many
  devices as there are ids, the k-th of them for the role that first names the k-th id.
  */
  lemma OneDevicePerPhysicalId(assignments: seq<Assignment>, roles: seq<Role>)
    requires Sharing(assignments, roles)
    ensures
      var devices, ids := Unique(DevicesOf(assignments)), Unique(IdsOf(roles));
      && |devices| == |ids|
      && forall i, k :: 0 <= i < |roles| && 0 <= k < |ids| ==>
        (assignments[i].device == devices[k] <==> roles[i].physicalId == ids[k])
  {
    var a, b := DevicesOf(assignments), IdsOf(roles);
    SamePatternSamePositions(a, b);
    UniqueKeepsFirstOccurrences(a);
    UniqueKeepsFirstOccurrences(b);
    var positions := FirstPositions(a);
    forall i, k | 0 <= i < |roles| && 0 <= k < |Unique(b)|
      ensures assignments[i].device == Unique(a)[k] <==> roles[i].physicalId == Unique(b)[k]
    {
      assert a[positions[k]] == Unique(a)[k] && b[positions[k]] == Unique(b)[k];
      assert a[i] == a[positions[k]] <==> b[i] == b[positions[k]];
    }
  }
}
