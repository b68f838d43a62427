/** SVDFile: the device, whose peripherals are built in document order,
    each one able to derive from the peripherals stored before it. */
module Devices {
  import opened Wrappers
  import opened Errors
  import opened Nodes
  import opened SmartDicts
  import opened Peripherals

  /** The device's own base address, which every peripheral records as its
      parent's. */
  const DeviceBase: int := 0

  /** A parsed SVD file. */
  datatype Device = Device(baseAddress: int, peripherals: Dict<Peripheral>)

  /** The peripherals after the children `ps` of `<peripherals>`. Each
      `<peripheral>` is built among the peripherals stored so far; a
      non-fatal error skips it, any other error ends the load. A built
      peripheral is stored under its node's `name`, so a derived node
      without a name of its own ends the load once built. */
  function PeripheralsFrom(peripherals: Dict<Peripheral>, ps: seq<PeripheralChild>): Result<Dict<Peripheral>, Error>
    decreases |ps|
  {
    if ps == [] then Ok(peripherals)
    else match ps[0]
      case OtherPeripheralChild(_) => PeripheralsFrom(peripherals, ps[1..])
      case PeripheralElem(node) =>
        match PeripheralOf(node, peripherals, DeviceBase)
        case Err(NonFatal(_)) => PeripheralsFrom(peripherals, ps[1..])
        case Err(e) => Err(e)
        case Ok(p) =>
          (match Required(node.name, "name")
           case Err(e) => Err(e)
           case Ok(key) => PeripheralsFrom(Insert(peripherals, key, p), ps[1..]))
  }

  /** `SVDFile(fname)` on the children of `<peripherals>`. */
  function DeviceOf(ps: seq<PeripheralChild>): Result<Device, Error> {
    var peripherals :- PeripheralsFrom(Empty(), ps);
    Ok(Device(DeviceBase, peripherals))
  }

  // ---------------------------------------------------------------------
  // Properties

  /** The peripheral loop keeps the dictionary well formed and every
      stored peripheral valid. */
  lemma {:induction false} PeripheralsFromValid(peripherals: Dict<Peripheral>, ps: seq<PeripheralChild>)
    requires WellFormed(peripherals) && AllValid(peripherals)
    requires PeripheralsFrom(peripherals, ps).Ok?
    ensures WellFormed(PeripheralsFrom(peripherals, ps).value)
    ensures AllValid(PeripheralsFrom(peripherals, ps).value)
    decreases |ps|
  {
    if ps != [] {
      match ps[0]
      case OtherPeripheralChild(_) =>
        PeripheralsFromValid(peripherals, ps[1..]);
      case PeripheralElem(node) =>
        var built := PeripheralOf(node, peripherals, DeviceBase);
        if built.Ok? {
          var p := built.value;
          var key := node.name.value;
          PeripheralValid(node, peripherals, DeviceBase);
          InsertWellFormed(peripherals, key, p);
          InsertHave(peripherals, key, p, Valid);
          PeripheralsFromValid(Insert(peripherals, key, p), ps[1..]);
        } else {
          PeripheralsFromValid(peripherals, ps[1..]);
        }
    }
  }

  /** Every peripheral of a loaded device is valid: its registers point at
      its base address and its clusters belong to it. */
  lemma DeviceValid(ps: seq<PeripheralChild>)
    requires DeviceOf(ps).Ok?
    ensures DeviceOf(ps).value.baseAddress == DeviceBase
    ensures WellFormed(DeviceOf(ps).value.peripherals)
    ensures AllValid(DeviceOf(ps).value.peripherals)
  {
    PeripheralsFromValid(Empty(), ps);
  }

  /** A `<peripheral>` without a base address is skipped, and the load goes
      on with the next child. */
  lemma MissingBaseSkipped(peripherals: Dict<Peripheral>, ps: seq<PeripheralChild>)
    requires ps != [] && ps[0].PeripheralElem? && ps[0].peripheral.baseAddress.None?
    ensures PeripheralsFrom(peripherals, ps) == PeripheralsFrom(peripherals, ps[1..])
  {
    assert PeripheralOf(ps[0].peripheral, peripherals, DeviceBase) == Err(MissingBase);
  }

  /** A built peripheral is stored under its node's name; every other
      entry, the peripheral a derived one was copied from among them, is
      left as it was. */
  lemma PeripheralStored(peripherals: Dict<Peripheral>, ps: seq<PeripheralChild>)
    requires ps != [] && ps[0].PeripheralElem?
    requires PeripheralOf(ps[0].peripheral, peripherals, DeviceBase).Ok? && ps[0].peripheral.name.Some?
    ensures var key := ps[0].peripheral.name.value;
      var next := Insert(peripherals, key, PeripheralOf(ps[0].peripheral, peripherals, DeviceBase).value);
      && PeripheralsFrom(peripherals, ps) == PeripheralsFrom(next, ps[1..])
      && next.od[key] == PeripheralOf(ps[0].peripheral, peripherals, DeviceBase).value
      && (forall k :: k != key ==> Get(next.od, k) == Get(peripherals.od, k))
  {
    var key := ps[0].peripheral.name.value;
    var p := PeripheralOf(ps[0].peripheral, peripherals, DeviceBase).value;
    assert Insert(peripherals, key, p).od == peripherals.od[key := p];
  }

  /** A derived `<peripheral>` without a name of its own is built with its
      source's name, but the load then fails on the missing `name` when it
      stores it. */
  lemma DerivedWithoutName(peripherals: Dict<Peripheral>, ps: seq<PeripheralChild>)
    requires ps != [] && ps[0].PeripheralElem?
    requires ps[0].peripheral.derivedFrom.Some? && ps[0].peripheral.name.None?
    requires PeripheralOf(ps[0].peripheral, peripherals, DeviceBase).Ok?
    ensures PeripheralsFrom(peripherals, ps) == Err(AttributeError("name"))
  {
  }

  // ---------------------------------------------------------------------
  // The imperative operation

  /** `SVDFile.__init__`: the children of `<peripherals>` are built and
      stored one at a time. */
  method LoadDevice(ps: seq<PeripheralChild>) returns (r: Result<Device, Error>)
    ensures r == DeviceOf(ps)
  {
    var peripherals := new SmartDict<Peripheral>();
    var i := 0;
    while i < |ps|
      invariant 0 <= i <= |ps|
      invariant peripherals.Valid() && AllValid(peripherals.Model())
      invariant PeripheralsFrom(peripherals.Model(), ps[i..]) == PeripheralsFrom(Empty(), ps)
    {
      ghost var previous, remaining := peripherals.Model(), ps[i..];
      assert remaining[0] == ps[i];
      if ps[i].PeripheralElem? {
        var node := ps[i].peripheral;
        var built := NewPeripheral(node, peripherals.Model(), DeviceBase);
        if built.Err? && !built.error.NonFatal? {
          return Err(built.error);
        }
        if built.Ok? {
          if node.name.None? {
            return Err(AttributeError("name"));
          }
          PeripheralValid(node, previous, DeviceBase);
          InsertHave(previous, node.name.value, built.value, Valid);
          var _ := peripherals.SetItem(node.name.value, built.value);
        }
      }
      i := i + 1;
      assert PeripheralsFrom(previous, remaining) == PeripheralsFrom(peripherals.Model(), ps[i..]);
    }
    assert ps[i..] == [];
    return Ok(Device(DeviceBase, peripherals.Model()));
  }
}
