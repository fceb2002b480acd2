/** server/core/drivers_manager.hpp and drivers_manager.cpp: lazy construction of the drivers,
    with re-entrant requests from the constructors. */
module Drivers {
  import opened DriverStartup

  /** Marks and storage of the constructed drivers. */
  class DriverContainer {
    const isStarted: array<bool>
    const isStarting: array<bool>
    const tuple: array<bool>   // which unique_ptrs of driver_tuple are not null
    ghost var constructed: seq<nat>
    ghost var finished: seq<nat>

    constructor (n: nat)
      ensures fresh(isStarted) && fresh(isStarting) && fresh(tuple)
      ensures isStarted.Length == isStarting.Length == tuple.Length == n
      ensures isStarted != isStarting && isStarted != tuple && isStarting != tuple
      ensures forall i :: 0 <= i < n ==> !isStarted[i] && !isStarting[i] && !tuple[i]
      ensures constructed == finished == []
    {
      isStarted := new bool[n](_ => false);
      isStarting := new bool[n](_ => false);
      tuple := new bool[n](_ => false);
      constructed, finished := [], [];
    }

    /** DriverContainer::alloc; the constructor asks the manager for its dependencies. */
    method Alloc(d: nat, m: DriverManager) returns (err: int)
      requires m.Valid() && m.container == this && d < |m.deps|
      modifies m.Repr()
      ensures m.ValidBut(d)
      ensures m.isStarted[d] == old(m.isStarted[d]) && m.devices[d] == old(m.devices[d])
      ensures m.Abs() == if d in old(m.Abs()).started || d in old(m.Abs()).starting then old(m.Abs())
                         else Request(m.deps, d, old(m.Abs()))
      ensures err < 0 <==> d in old(m.Abs()).starting
      ensures err >= 0 ==> d in m.Abs().started
      decreases White(m.deps, m.Abs()), 1, 0
    {
      if isStarted[d] {
        return 0;
      }
      if isStarting[d] {
        return -1;
      }
      hide WellFormed, Request, RequestAll;
      ghost var s := m.Abs();
      RequestUnmarked(m.deps, d, s);
      Begin(d, m);
      m.Construct(m.deps[d], 0);
      assert m.deps[d][0..] == m.deps[d];
      Finish(d, m);
      return 0;
    }

    /** What alloc does before the construction of the driver. */
    method Begin(d: nat, m: DriverManager)
      requires m.Valid() && m.container == this && d < |m.deps|
      requires d !in m.Abs().started && d !in m.Abs().starting
      modifies isStarting, this`constructed
      ensures m.Valid() && m.isStarted[d] == old(m.isStarted[d]) && m.devices[d] == old(m.devices[d])
      ensures m.Abs() == old(m.Abs()).(starting := old(m.Abs()).starting + {d},
                                       constructed := old(m.Abs()).constructed + [d])
      ensures White(m.deps, m.Abs()) < White(m.deps, old(m.Abs()))
      ensures forall i :: 0 <= i < |m.deps[d]| ==> m.deps[d][i] < |m.deps|
    {
      ghost var s := m.Abs();
      isStarting[d] := true;
      constructed := constructed + [d];
      assert m.Abs().starting == s.starting + {d};
      assert d in White(m.deps, s) && d !in White(m.deps, m.Abs());
    }

    /** What alloc does behind it. */
    method Finish(d: nat, m: DriverManager)
      requires m.Valid() && m.container == this && d < |m.deps| && d in m.Abs().starting
      modifies tuple, isStarting, isStarted, this`finished
      ensures m.ValidBut(d)
      ensures m.isStarted[d] == old(m.isStarted[d]) && m.devices[d] == old(m.devices[d])
      ensures var t := old(m.Abs());
              m.Abs() == t.(starting := t.starting - {d}, started := t.started + {d}, finished := t.finished + [d])
    {
      ghost var t := m.Abs();
      tuple[d] := true;
      isStarting[d] := false;
      isStarted[d] := true;
      finished := finished + [d];
      assert m.Abs().starting == t.starting - {d};
      assert m.Abs().started == t.started + {d};
    }
  }

  /** Who gets a command. */
  datatype Handler = NoDriver | TheServer | TheDriver(d: nat)

  class DriverManager {
    const deps: Graph
    const container: DriverContainer
    const isStarted: array<bool>
    const devices: array<int>    // the type field of each entry of device_list, -1 when it is null
    var exitAll: bool            // the server's flag

    ghost function Repr(): set<object> {
      {this, isStarted, devices, container, container.isStarted, container.isStarting, container.tuple}
    }

    ghost predicate Shape() {
      && WellFormed(deps)
      && isStarted.Length == devices.Length == |deps|
      && container.isStarted.Length == container.isStarting.Length == container.tuple.Length == |deps|
      && isStarted != container.isStarted && isStarted != container.isStarting
      && isStarted != container.tuple && container.isStarted != container.isStarting
      && container.isStarted != container.tuple && container.isStarting != container.tuple
    }

    /** The manager's marks, the device list and the driver tuple all agree with the container's
        marks, except perhaps for the manager's records of driver x. */
    ghost predicate ValidBut(x: int)
      reads Repr()
    {
      && Shape()
      && (forall i :: 0 <= i < |deps| && i != x ==>
            isStarted[i] == container.isStarted[i] &&
            devices[i] == if container.isStarted[i] then i else -1)
      && (forall i :: 0 <= i < |deps| ==> container.tuple[i] == container.isStarted[i])
      && (forall i :: 0 <= i < |deps| ==> !(container.isStarted[i] && container.isStarting[i]))
    }

    ghost predicate Valid()
      reads Repr()
    {
      ValidBut(-1)
    }

    /** The start-up state that the arrays represent. */
    ghost function Abs(): State
      requires Shape()
      reads Repr()
    {
      State((set i: nat | i < |deps| && container.isStarted[i]),
            (set i: nat | i < |deps| && container.isStarting[i]),
            exitAll, container.constructed, container.finished)
    }

    constructor (deps: Graph)
      requires WellFormed(deps)
      ensures this.deps == deps && Valid() && Abs() == INITIAL && fresh(Repr())
    {
      this.deps := deps;
      container := new DriverContainer(|deps|);
      isStarted := new bool[|deps|](_ => false);
      devices := new int[|deps|](_ => -1);
      exitAll := false;
    }

    /** The constructor of a driver: ctx.get for each of its dependencies, from position i. */
    method Construct(ds: seq<nat>, i: nat)
      requires Valid() && i <= |ds| && forall k :: 0 <= k < |ds| ==> ds[k] < |deps|
      modifies Repr()
      ensures Valid() && Abs() == RequestAll(deps, ds[i..], old(Abs()))
      decreases White(deps, Abs()), 4, |ds| - i
    {
      if i < |ds| {
        ghost var s := Abs();
        var reference := Get(ds[i]);
        assert White(deps, Abs()) <= White(deps, s);
        Construct(ds, i + 1);
        assert ds[i..][0] == ds[i] && ds[i..][1..] == ds[i + 1..];
      }
    }

    /** DriverManager::get; the result says whether the returned reference is to a driver. */
    method Get(d: nat) returns (reference: bool)
      requires Valid() && d < |deps|
      modifies Repr()
      ensures Valid() && Abs() == Request(deps, d, old(Abs()))
      ensures reference <==> d !in old(Abs()).starting
      decreases White(deps, Abs()), 3, 0
    {
      if !isStarted[d] {
        AllocDriver(d);
      }
      reference := container.tuple[d];
    }

    /** DriverManager::alloc_driver */
    method AllocDriver(d: nat)
      requires Valid() && d < |deps|
      modifies Repr()
      ensures Valid() && Abs() == Request(deps, d, old(Abs()))
      decreases White(deps, Abs()), 2, 0
    {
      if isStarted[d] {
        return;
      }
      var err := container.Alloc(d, this);
      if err < 0 {
        exitAll := true;
        return;
      }
      devices[d] := d;
      isStarted[d] := true;
    }

    /** start_impl: walk the driver numbers from dev0 to the last one. */
    method Start(driver: nat, dev0: nat)
      requires Valid() && dev0 <= driver < |deps|
      modifies Repr()
      ensures Valid() && Abs() == Request(deps, driver, old(Abs()))
      decreases |deps| - dev0
    {
      if driver == dev0 || dev0 == |deps| - 1 {
        AllocDriver(dev0);
      } else {
        Start(driver, dev0 + 1);
      }
    }

    /** execute_driver_implementation: the number of the Driver<dev0> the command is given to. */
    static method Dispatch(deviceType: int, dev0: nat, n: nat) returns (handler: nat)
      requires dev0 < n && dev0 <= deviceType < n
      ensures handler == deviceType
      decreases n - dev0
    {
      if deviceType == dev0 || dev0 == n - 1 {
        handler := dev0;
      } else {
        handler := Dispatch(deviceType, dev0 + 1, n);
      }
    }

    /** execute: number 0 does nothing, and number 1 is the server itself. From number 2 on the
        command reaches that very driver, whose device is there, whatever ran before. */
    method Execute(number: nat) returns (handler: Handler)
      requires Valid() && number < |deps| + 2 && Abs().starting == {}
      modifies Repr()
      ensures Valid() && Abs().starting == {}
      ensures number == 0 ==> handler == NoDriver && Abs() == old(Abs())
      ensures number == 1 ==> handler == TheServer && Abs() == old(Abs())
      ensures number >= 2 ==>
                && handler == TheDriver(number - 2) && devices[number - 2] == number - 2
                && Abs() == Request(deps, number - 2, old(Abs()))
    {
      if number == 0 {
        return NoDriver;
      }
      if number == 1 {
        return TheServer;
      }
      if !isStarted[number - 2] {
        Start(number - 2, 0);
      }
      var d := Dispatch(devices[number - 2], 0, |deps|);
      return TheDriver(d);
    }
  }
}
