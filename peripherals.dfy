/** SVDPeripheral: a peripheral built either from its own `<registers>`
    block or as a copy of the peripheral it is derived from, re-pointed at
    its own base address. */
module Peripherals {
  import opened Wrappers
  import opened Errors
  import opened Text
  import opened Nodes
  import opened SmartDicts
  import opened Registers
  import opened Clusters

  /** A peripheral of the device. */
  datatype Peripheral = Peripheral(
    parentBaseAddress: int,
    baseAddress: int,
    name: string,
    description: string,
    registers: Dict<Register>,
    clusters: Dict<Cluster>)

  /** The registers and the clusters of a peripheral being built. */
  datatype Blocks = Blocks(registers: Dict<Register>, clusters: Dict<Cluster>)

  /** The raise of a peripheral without a base address: the one error the
      device loop reports and skips. */
  const MissingBase: Error := NonFatal("Periph without base address")

  /** The blocks after the children `cs` of `<registers>`, for the
      peripheral named `name` at `base`: `<cluster>` children go through
      `add_cluster`, `<register>` children through `add_register`, and
      every other child is skipped. */
  function BlocksFrom(b: Blocks, cs: seq<RegisterBlock>, base: int, name: string): Result<Blocks, Error>
    decreases |cs|
  {
    if cs == [] then Ok(b)
    else match cs[0]
      case ClusterElem(node) =>
        (match AddClusterTo(b.clusters, node, base, name)
         case Err(e) => Err(e)
         case Ok(clusters) => BlocksFrom(b.(clusters := clusters), cs[1..], base, name))
      case RegisterElem(node) =>
        (match AddRegisterTo(b.registers, node, base)
         case Err(e) => Err(e)
         case Ok(registers) => BlocksFrom(b.(registers := registers), cs[1..], base, name))
      case OtherElem(_) => BlocksFrom(b, cs[1..], base, name)
  }

  /** `refactor_parent(parent)` of a peripheral, for a device at
      `deviceBase`: its registers are re-pointed at its base address and
      its clusters at the peripheral itself. */
  function RebasedPeripheral(p: Peripheral, deviceBase: int): Peripheral {
    p.(parentBaseAddress := deviceBase,
       registers := RebasedRegisters(p.registers, p.baseAddress),
       clusters := RebasedClusters(p.clusters, p.baseAddress, p.name))
  }

  /** `SVDPeripheral(node, parent)` for a device at `deviceBase` whose
      peripherals so far are `peripherals`. A node without a base address
      raises the non-fatal error. A derived node copies the registers and
      clusters of the peripheral it names, found with the dictionary's
      lookup, and takes its name and description from that peripheral
      when it has none of its own; the copy is then re-pointed at the new
      peripheral. Any other node is built from its `<registers>` block. */
  function PeripheralOf(node: PeripheralNode, peripherals: Dict<Peripheral>, deviceBase: int): Result<Peripheral, Error> {
    if node.baseAddress.None? then Err(MissingBase)
    else
      var base :- AutoIntOf(node.baseAddress.value);
      if node.derivedFrom.Some? then
        var source :- Fetch(peripherals, node.derivedFrom.value);
        var copy := Peripheral(deviceBase, base, node.name.GetOr(source.name), node.description.GetOr(source.description),
                               source.registers, source.clusters);
        Ok(RebasedPeripheral(copy, deviceBase))
      else
        var description := node.description.GetOr("");
        var name :- Required(node.name, "name");
        var b :- BlocksFrom(Blocks(Empty(), Empty()), node.registers.GetOr([]), base, name);
        Ok(Peripheral(deviceBase, base, name, description, b.registers, b.clusters))
  }

  // ---------------------------------------------------------------------
  // Properties

  /** What every peripheral keeps: well-formed dictionaries, registers
      that point at the peripheral's base address, and clusters that
      belong to it. */
  ghost predicate Valid(p: Peripheral) {
    && WellFormed(p.registers)
    && AllAt(p.registers, p.baseAddress)
    && WellFormed(p.clusters)
    && ClustersIn(p.clusters, p.baseAddress, p.name)
  }

  /** The blocks of a peripheral named `name` at `base` so far. */
  ghost predicate BlocksValid(b: Blocks, base: int, name: string) {
    && WellFormed(b.registers)
    && AllAt(b.registers, base)
    && WellFormed(b.clusters)
    && ClustersIn(b.clusters, base, name)
  }

  /** The `<registers>` loop keeps the blocks valid. */
  lemma {:induction false} BlocksFromValid(b: Blocks, cs: seq<RegisterBlock>, base: int, name: string)
    requires BlocksValid(b, base, name) && BlocksFrom(b, cs, base, name).Ok?
    ensures BlocksValid(BlocksFrom(b, cs, base, name).value, base, name)
    decreases |cs|
  {
    if cs != [] {
      match cs[0]
      case ClusterElem(node) =>
        AddClusterIn(b.clusters, node, base, name);
        BlocksFromValid(b.(clusters := AddClusterTo(b.clusters, node, base, name).value), cs[1..], base, name);
      case RegisterElem(node) =>
        AddRegisterWellFormed(b.registers, node, base);
        AddRegisterAt(b.registers, node, base);
        BlocksFromValid(b.(registers := AddRegisterTo(b.registers, node, base).value), cs[1..], base, name);
      case OtherElem(_) =>
        BlocksFromValid(b, cs[1..], base, name);
    }
  }

  /** One child of the `<registers>` loop, from the blocks `b` before it to
      the blocks `next` after it, with the children `rest` still to come. */
  lemma BlocksFromStep(b: Blocks, cs: seq<RegisterBlock>, base: int, name: string, next: Blocks, rest: seq<RegisterBlock>)
    requires cs != [] && rest == cs[1..]
    requires cs[0].ClusterElem? ==> AddClusterTo(b.clusters, cs[0].cluster, base, name) == Ok(next.clusters) && next.registers == b.registers
    requires cs[0].RegisterElem? ==> AddRegisterTo(b.registers, cs[0].register, base) == Ok(next.registers) && next.clusters == b.clusters
    requires cs[0].OtherElem? ==> next == b
    ensures BlocksFrom(b, cs, base, name) == BlocksFrom(next, rest, base, name)
  {
  }

  /** The `<registers>` loop stops at the first child that fails. */
  lemma BlocksFromFails(b: Blocks, cs: seq<RegisterBlock>, base: int, name: string, e: Error)
    requires cs != []
    requires cs[0].ClusterElem? ==> AddClusterTo(b.clusters, cs[0].cluster, base, name) == Err(e)
    requires cs[0].RegisterElem? ==> AddRegisterTo(b.registers, cs[0].register, base) == Err(e)
    requires !cs[0].OtherElem?
    ensures BlocksFrom(b, cs, base, name) == Err(e)
  {
  }

  /** Every stored peripheral is valid. */
  ghost predicate AllValid(peripherals: Dict<Peripheral>) {
    AllHave(peripherals.od, Valid)
  }

  /** A peripheral built among valid peripherals is valid, a derived one
      too: its copied registers and clusters are re-pointed at it. */
  lemma PeripheralValid(node: PeripheralNode, peripherals: Dict<Peripheral>, deviceBase: int)
    requires AllValid(peripherals) && PeripheralOf(node, peripherals, deviceBase).Ok?
    ensures Valid(PeripheralOf(node, peripherals, deviceBase).value)
  {
    var p := PeripheralOf(node, peripherals, deviceBase).value;
    if node.derivedFrom.Some? {
      var source := Fetch(peripherals, node.derivedFrom.value).value;
      LookupStored(peripherals, node.derivedFrom.value);
      assert Valid(source);
      RebasedRegistersLookup(source.registers, p.baseAddress, "");
      RebasedRegistersAt(source.registers, p.baseAddress);
      RebasedClustersIn(source.clusters, p.baseAddress, p.name);
    } else {
      var name := node.name.value;
      var base := AutoIntOf(node.baseAddress.value).value;
      assert BlocksValid(Blocks(Empty(), Empty()), base, name);
      BlocksFromValid(Blocks(Empty(), Empty()), node.registers.GetOr([]), base, name);
    }
  }

  /** A value the lookup finds is a stored value. */
  lemma LookupStored<V>(d: Dict<V>, key: string)
    requires Lookup(d, key).Some?
    ensures exists k :: k in d.od && d.od[k] == Lookup(d, key).value
  {
    if key in d.od {
    } else if Lower(key) in d.casemap {
      assert Get(d.od, d.casemap[Lower(key)]).Some?;
    } else {
      assert Get(d.od, FirstPrefixMatch(d, key).value).Some?;
    }
  }

  /** A derived peripheral is the peripheral its `derivedFrom` names, found
      as the dictionary finds it, under the node's own name and
      description where it has them, at the node's base address. Its
      registers and clusters are the source's under the same keys, each
      register now at the new base address plus its unchanged offset, and
      each cluster at its unchanged offset past the new base address. */
  lemma DerivedPeripheral(node: PeripheralNode, peripherals: Dict<Peripheral>, deviceBase: int, key: string)
    requires node.derivedFrom.Some? && PeripheralOf(node, peripherals, deviceBase).Ok?
    ensures Lookup(peripherals, node.derivedFrom.value).Some?
    ensures var source := Lookup(peripherals, node.derivedFrom.value).value;
      var p := PeripheralOf(node, peripherals, deviceBase).value;
      && node.baseAddress.Some? && AutoIntOf(node.baseAddress.value) == Ok(p.baseAddress)
      && p.parentBaseAddress == deviceBase
      && p.name == node.name.GetOr(source.name)
      && p.description == node.description.GetOr(source.description)
      && p.registers.od.Keys == source.registers.od.Keys
      && p.clusters.od.Keys == source.clusters.od.Keys
      && (Lookup(p.registers, key).Some? <==> Lookup(source.registers, key).Some?)
      && (Lookup(source.registers, key).Some? ==>
            Address(Lookup(p.registers, key).value) == p.baseAddress + Lookup(source.registers, key).value.offset)
      && (forall k :: k in p.clusters.od ==>
            p.clusters.od[k].baseAddress == p.baseAddress + source.clusters.od[k].addressOffset)
  {
    var source := Lookup(peripherals, node.derivedFrom.value).value;
    var p := PeripheralOf(node, peripherals, deviceBase).value;
    RebasedRegistersLookup(source.registers, p.baseAddress, key);
  }

  /** A derived peripheral ignores its own `<registers>` block: the node
      builds the same peripheral, or fails the same way, without it. */
  lemma DerivedIgnoresRegisters(node: PeripheralNode, peripherals: Dict<Peripheral>, deviceBase: int)
    requires node.derivedFrom.Some?
    ensures PeripheralOf(node, peripherals, deviceBase) == PeripheralOf(node.(registers := None), peripherals, deviceBase)
  {
  }

  /** A peripheral that is not derived holds exactly what its
      `<registers>` block builds, against its own base address and name;
      it has no description unless the node gives one. */
  lemma OwnPeripheral(node: PeripheralNode, peripherals: Dict<Peripheral>, deviceBase: int)
    requires node.derivedFrom.None? && PeripheralOf(node, peripherals, deviceBase).Ok?
    ensures var p := PeripheralOf(node, peripherals, deviceBase).value;
      && node.baseAddress.Some? && AutoIntOf(node.baseAddress.value) == Ok(p.baseAddress)
      && node.name == Some(p.name)
      && p.description == node.description.GetOr("")
      && p.parentBaseAddress == deviceBase
      && BlocksFrom(Blocks(Empty(), Empty()), node.registers.GetOr([]), p.baseAddress, p.name) == Ok(Blocks(p.registers, p.clusters))
  {
  }

  // ---------------------------------------------------------------------
  // The imperative operations

  /** `refactor_parent(parent)` of a peripheral: its registers, then its
      clusters, are re-pointed one at a time. */
  method RefactorPeripheral(p: Peripheral, deviceBase: int) returns (r: Peripheral)
    requires WellFormed(p.registers) && WellFormed(p.clusters) && ClustersValid(p.clusters)
    ensures r == RebasedPeripheral(p, deviceBase)
  {
    var registers := RefactorRegisters(p.registers, p.baseAddress);
    var clusters := RefactorClusters(p.clusters, p.baseAddress, p.name);
    r := p.(parentBaseAddress := deviceBase, registers := registers, clusters := clusters);
  }

  /** `SVDPeripheral.__init__`: the children of `<registers>` are added in
      a loop to the peripheral's two dictionaries. */
  method NewPeripheral(node: PeripheralNode, peripherals: Dict<Peripheral>, deviceBase: int) returns (r: Result<Peripheral, Error>)
    requires AllValid(peripherals)
    ensures r == PeripheralOf(node, peripherals, deviceBase)
  {
    if node.baseAddress.None? {
      return Err(MissingBase);
    }
    var base := AutoIntOf(node.baseAddress.value);
    if base.Err? {
      return Err(base.error);
    }
    if node.derivedFrom.Some? {
      var source := Fetch(peripherals, node.derivedFrom.value);
      if source.Err? {
        return Err(source.error);
      }
      LookupStored(peripherals, node.derivedFrom.value);
      assert Valid(source.value);
      var copy := Peripheral(deviceBase, base.value, node.name.GetOr(source.value.name),
                             node.description.GetOr(source.value.description),
                             source.value.registers, source.value.clusters);
      var rebased := RefactorPeripheral(copy, deviceBase);
      return Ok(rebased);
    }
    var description := node.description.GetOr("");
    if node.name.None? {
      return Err(AttributeError("name"));
    }
    var name := node.name.value;
    var cs := node.registers.GetOr([]);
    var registers := new SmartDict<Register>();
    var clusters := new SmartDict<Cluster>();
    var i := 0;
    while i < |cs|
      invariant 0 <= i <= |cs|
      invariant registers.Valid() && clusters.Valid()
      invariant BlocksFrom(Blocks(registers.Model(), clusters.Model()), cs[i..], base.value, name) ==
                BlocksFrom(Blocks(Empty(), Empty()), cs, base.value, name)
    {
      ghost var previous, remaining := Blocks(registers.Model(), clusters.Model()), cs[i..];
      assert remaining[0] == cs[i];
      var error: Option<Error> := None;
      if cs[i].ClusterElem? {
        error := AddCluster(clusters, cs[i].cluster, base.value, name);
      } else if cs[i].RegisterElem? {
        error := AddRegister(registers, cs[i].register, base.value);
      }
      if error.Some? {
        BlocksFromFails(previous, remaining, base.value, name, error.value);
        return Err(error.value);
      }
      i := i + 1;
      BlocksFromStep(previous, remaining, base.value, name, Blocks(registers.Model(), clusters.Model()), cs[i..]);
    }
    assert cs[i..] == [];
    return Ok(Peripheral(deviceBase, base.value, name, description, registers.Model(), clusters.Model()));
  }
}
