/** SVDRegisterCluster and `add_cluster`: a cluster built from its node
    inside a peripheral, with the registers among its children; the
    expansion of a dimensioned cluster into one cluster per index label;
    and re-pointing a cluster at a new peripheral. */
module Clusters {
  import opened Wrappers
  import opened Errors
  import opened Text
  import opened Nodes
  import opened SmartDicts
  import opened Dimensions
  import opened Registers

  /** A register cluster. Its `clusters` dictionary is not part of the
      model: the cluster never stores anything in it. */
  datatype Cluster = Cluster(
    parentBaseAddress: int,
    parentName: string,
    addressOffset: int,
    baseAddress: int,
    description: string,
    name: string,
    registers: Dict<Register>)

  /** The registers after the children `cs` of a block whose base address
      is `base`: each `<register>` child goes through `add_register`, every
      other child is skipped. */
  function RegistersFrom(regs: Dict<Register>, cs: seq<RegisterBlock>, base: int): Result<Dict<Register>, Error>
    decreases |cs|
  {
    if cs == [] then Ok(regs)
    else match cs[0]
      case RegisterElem(node) =>
        (match AddRegisterTo(regs, node, base)
         case Err(e) => Err(e)
         case Ok(next) => RegistersFrom(next, cs[1..], base))
      case _ => RegistersFrom(regs, cs[1..], base)
  }

  /** `int(str(node.addressOffset), 0)`. */
  function ClusterOffsetOf(node: ClusterNode): Result<nat, Error> {
    var text :- Required(node.addressOffset, "addressOffset");
    AutoIntOf(text)
  }

  /** The cluster a `<cluster>` node describes inside the peripheral named
      `parentName` at base address `parentBase`: its base address is its
      offset past the peripheral's, and its registers are built against
      that base address. */
  function ClusterOf(node: ClusterNode, parentBase: int, parentName: string): Result<Cluster, Error> {
    var offset :- ClusterOffsetOf(node);
    var name :- Required(node.name, "name");
    var regs :- RegistersFrom(Empty(), node.children, offset + parentBase);
    Ok(Cluster(parentBase, parentName, offset, offset + parentBase, node.description.GetOr(""), name, regs))
  }

  // ---------------------------------------------------------------------
  // The registers of a cluster

  /** One child of the register loop, from the registers `regs` before it
      to the registers `next` after it, with the children `rest` still to
      come. */
  lemma RegistersFromStep(regs: Dict<Register>, cs: seq<RegisterBlock>, base: int, next: Dict<Register>, rest: seq<RegisterBlock>)
    requires cs != [] && rest == cs[1..]
    requires cs[0].RegisterElem? ==> AddRegisterTo(regs, cs[0].register, base) == Ok(next)
    requires !cs[0].RegisterElem? ==> next == regs
    ensures RegistersFrom(regs, cs, base) == RegistersFrom(next, rest, base)
  {
  }

  /** The register loop stops at the first register that fails. */
  lemma RegistersFromFails(regs: Dict<Register>, cs: seq<RegisterBlock>, base: int)
    requires cs != [] && cs[0].RegisterElem? && AddRegisterTo(regs, cs[0].register, base).Err?
    ensures RegistersFrom(regs, cs, base) == Err(AddRegisterTo(regs, cs[0].register, base).error)
  {
  }

  /** The register loop keeps the dictionary well formed. */
  lemma {:induction false} RegistersFromWellFormed(regs: Dict<Register>, cs: seq<RegisterBlock>, base: int)
    requires WellFormed(regs) && RegistersFrom(regs, cs, base).Ok?
    ensures WellFormed(RegistersFrom(regs, cs, base).value)
    decreases |cs|
  {
    if cs != [] {
      if cs[0].RegisterElem? {
        AddRegisterWellFormed(regs, cs[0].register, base);
        RegistersFromWellFormed(AddRegisterTo(regs, cs[0].register, base).value, cs[1..], base);
      } else {
        RegistersFromWellFormed(regs, cs[1..], base);
      }
    }
  }

  /** Every register the loop stores points at the block's base address. */
  lemma {:induction false} RegistersFromAt(regs: Dict<Register>, cs: seq<RegisterBlock>, base: int)
    requires AllAt(regs, base) && RegistersFrom(regs, cs, base).Ok?
    ensures AllAt(RegistersFrom(regs, cs, base).value, base)
    decreases |cs|
  {
    if cs != [] {
      if cs[0].RegisterElem? {
        AddRegisterAt(regs, cs[0].register, base);
        RegistersFromAt(AddRegisterTo(regs, cs[0].register, base).value, cs[1..], base);
      } else {
        RegistersFromAt(regs, cs[1..], base);
      }
    }
  }

  /** Only `<register>` children count: taking out a nested `<cluster>` or
      any other child changes nothing. */
  lemma {:induction false} RegistersFromSkips(regs: Dict<Register>, cs: seq<RegisterBlock>, base: int, i: nat)
    requires i < |cs| && !cs[i].RegisterElem?
    ensures RegistersFrom(regs, cs[..i] + cs[i + 1..], base) == RegistersFrom(regs, cs, base)
    decreases i
  {
    var without := cs[..i] + cs[i + 1..];
    if i == 0 {
      assert without == cs[1..];
    } else {
      assert without[0] == cs[0];
      assert without[1..] == cs[1..][..i - 1] + cs[1..][i..];
      if cs[0].RegisterElem? {
        match AddRegisterTo(regs, cs[0].register, base)
        case Err(_) =>
        case Ok(next) => RegistersFromSkips(next, cs[1..], base, i - 1);
      } else {
        RegistersFromSkips(regs, cs[1..], base, i - 1);
      }
    }
  }

  /** What a built cluster holds: the parsed offset, a base address that
      is the offset past the peripheral's, the node's name and description,
      and a well-formed registers dictionary whose registers all point at
      the cluster's base address. */
  lemma ClusterContents(node: ClusterNode, parentBase: int, parentName: string)
    requires ClusterOf(node, parentBase, parentName).Ok?
    ensures var c := ClusterOf(node, parentBase, parentName).value;
      && ClusterOffsetOf(node) == Ok(c.addressOffset)
      && c.parentBaseAddress == parentBase
      && c.parentName == parentName
      && c.baseAddress == parentBase + c.addressOffset
      && node.name == Some(c.name)
      && c.description == node.description.GetOr("")
      && WellFormed(c.registers)
      && AllAt(c.registers, c.baseAddress)
  {
    var offset := ClusterOffsetOf(node).value;
    RegistersFromWellFormed(Empty(), node.children, offset + parentBase);
    RegistersFromAt(Empty(), node.children, offset + parentBase);
  }

  // ---------------------------------------------------------------------
  // `add_cluster`

  /** How each cluster of a dimensioned node is built: afresh from the
      node, whatever the clusters stored so far. */
  function ClusterBuilder(node: ClusterNode, parentBase: int, parentName: string): Dict<Cluster> -> Result<Cluster, Error> {
    (clusters: Dict<Cluster>) => ClusterOf(node, parentBase, parentName)
  }

  /** A cluster of a dimensioned node, renamed, with its offset and its
      base address moved `shift` further; its registers stay as built. */
  function PlaceCluster(c: Cluster, name: string, shift: int): Cluster {
    c.(name := name, addressOffset := c.addressOffset + shift, baseAddress := c.baseAddress + shift)
  }

  /** `add_cluster(parent, node)` on the clusters of the peripheral named
      `parentName` at `parentBase`: a dimensioned node stores one cluster
      per label; any other node is stored under its name whether or not
      that name is already there. */
  function AddClusterTo(clusters: Dict<Cluster>, node: ClusterNode, parentBase: int, parentName: string): Result<Dict<Cluster>, Error> {
    if node.dim.Some? then
      var d :- DimensionOf(node.dim.value, node.dimIncrement, node.dimIndex, node.name);
      Expand(clusters, ClusterBuilder(node, parentBase, parentName), PlaceCluster, Names(d.template, d.labels), 0, d.increment)
    else
      var c :- ClusterOf(node, parentBase, parentName);
      Ok(Insert(clusters, c.name, c))
  }

  /** A node without `dim` replaces the entry of its name: no lookup tier
      is consulted first, and every other entry is unchanged. */
  lemma AddClusterReplaces(clusters: Dict<Cluster>, node: ClusterNode, parentBase: int, parentName: string)
    requires node.dim.None? && AddClusterTo(clusters, node, parentBase, parentName).Ok?
    ensures ClusterOf(node, parentBase, parentName).Ok? && node.name.Some?
    ensures var r := AddClusterTo(clusters, node, parentBase, parentName).value;
      && node.name.value in r.od
      && r.od[node.name.value] == ClusterOf(node, parentBase, parentName).value
      && (forall k :: k != node.name.value ==> Get(r.od, k) == Get(clusters.od, k))
  {
    ClusterContents(node, parentBase, parentName);
  }

  /** `add_cluster` for a node with `dim`: it adds exactly the names
      `name % label`, every other cluster is unchanged, and with distinct
      labels whose names are new the number of clusters grows by the
      number of labels. */
  lemma DimensionedClusters(clusters: Dict<Cluster>, node: ClusterNode, parentBase: int, parentName: string)
    requires WellFormed(clusters)
    requires node.dim.Some? && AddClusterTo(clusters, node, parentBase, parentName).Ok?
    ensures DimensionOf(node.dim.value, node.dimIncrement, node.dimIndex, node.name).Ok?
    ensures var d := DimensionOf(node.dim.value, node.dimIncrement, node.dimIndex, node.name).value;
      var names := Names(d.template, d.labels);
      var r := AddClusterTo(clusters, node, parentBase, parentName).value;
      && WellFormed(r)
      && (forall k :: k in r.od <==> k in clusters.od || k in names)
      && (forall k :: k in clusters.od && k !in names ==> r.od[k] == clusters.od[k])
      && (Distinct(d.labels) && (forall j :: 0 <= j < |names| ==> names[j] !in clusters.od) ==> |r.od| == |clusters.od| + |names|)
  {
    var d := DimensionOf(node.dim.value, node.dimIncrement, node.dimIndex, node.name).value;
    Expanded(clusters, ClusterBuilder(node, parentBase, parentName), PlaceCluster, Names(d.template, d.labels), 0, d.increment);
    NamesDistinct(d.template, d.labels);
  }

  /** The cluster of label j of a dimensioned node, unless a later label
      repeats it, is named `name % label`, and its offset and its base
      address sit `j * dimIncrement` past the node's own. Its registers
      are the ones built against the unshifted base address, so they keep
      pointing `j * dimIncrement` below the cluster's base address. */
  lemma DimensionedCluster(clusters: Dict<Cluster>, node: ClusterNode, parentBase: int, parentName: string, j: nat)
    requires node.dim.Some? && AddClusterTo(clusters, node, parentBase, parentName).Ok?
    ensures DimensionOf(node.dim.value, node.dimIncrement, node.dimIndex, node.name).Ok?
    ensures var d := DimensionOf(node.dim.value, node.dimIncrement, node.dimIndex, node.name).value;
      j < |d.labels| && d.labels[j] !in d.labels[j + 1..] ==>
        var name := Instantiate(d.template, d.labels[j]);
        var r := AddClusterTo(clusters, node, parentBase, parentName).value;
        && ClusterOffsetOf(node).Ok?
        && name in r.od
        && r.od[name].name == name
        && r.od[name].addressOffset == ClusterOffsetOf(node).value + j * d.increment
        && r.od[name].baseAddress == parentBase + ClusterOffsetOf(node).value + j * d.increment
        && AllAt(r.od[name].registers, r.od[name].baseAddress - j * d.increment)
  {
    var d := DimensionOf(node.dim.value, node.dimIncrement, node.dimIndex, node.name).value;
    var names := Names(d.template, d.labels);
    if j < |d.labels| && d.labels[j] !in d.labels[j + 1..] {
      NamesDistinct(d.template, d.labels);
      var build := ClusterBuilder(node, parentBase, parentName);
      ExpandEntry(clusters, build, PlaceCluster, names, 0, d.increment, j);
      var s := Before(clusters, build, PlaceCluster, Insert, names, 0, d.increment, j);
      assert build(s) == ClusterOf(node, parentBase, parentName);
      ClusterContents(node, parentBase, parentName);
      PositionIs(0, d.increment, j);
    }
  }

  /** Every cluster of `clusters` has a well-formed registers dictionary. */
  ghost predicate ClustersValid(clusters: Dict<Cluster>) {
    forall k :: k in clusters.od ==> WellFormed(clusters.od[k].registers)
  }

  /** A cluster of the peripheral named `name` at `base`. */
  ghost predicate InPeripheral(c: Cluster, base: int, name: string) {
    c.parentBaseAddress == base && c.parentName == name && WellFormed(c.registers)
  }

  /** Every cluster of `clusters` belongs to the peripheral named `name`
      at `base` and has a well-formed registers dictionary. */
  ghost predicate ClustersIn(clusters: Dict<Cluster>, base: int, name: string) {
    AllHave(clusters.od, (c: Cluster) => InPeripheral(c, base, name))
  }

  /** `add_cluster` on the peripheral named `parentName` at `parentBase`
      keeps the clusters dictionary well formed, and every cluster it
      stores belongs to that peripheral and has well-formed registers. */
  lemma AddClusterIn(clusters: Dict<Cluster>, node: ClusterNode, parentBase: int, parentName: string)
    requires WellFormed(clusters) && ClustersIn(clusters, parentBase, parentName)
    requires AddClusterTo(clusters, node, parentBase, parentName).Ok?
    ensures WellFormed(AddClusterTo(clusters, node, parentBase, parentName).value)
    ensures ClustersIn(AddClusterTo(clusters, node, parentBase, parentName).value, parentBase, parentName)
  {
    var inPeripheral := (c: Cluster) => InPeripheral(c, parentBase, parentName);
    if node.dim.Some? {
      var d := DimensionOf(node.dim.value, node.dimIncrement, node.dimIndex, node.name).value;
      var build := ClusterBuilder(node, parentBase, parentName);
      DimensionedClusters(clusters, node, parentBase, parentName);
      forall e: Dict<Cluster>, n: string, s: int | build(e).Ok?
        ensures inPeripheral(PlaceCluster(build(e).value, n, s))
      {
        ClusterContents(node, parentBase, parentName);
      }
      ExpandAll(clusters, build, PlaceCluster, Names(d.template, d.labels), 0, d.increment, inPeripheral);
    } else {
      var c := ClusterOf(node, parentBase, parentName).value;
      ClusterContents(node, parentBase, parentName);
      InsertWellFormed(clusters, c.name, c);
      InsertHave(clusters, c.name, c, inPeripheral);
    }
  }

  // ---------------------------------------------------------------------
  // Rebasing (`refactor_parent`)

  /** `refactor_parent(parent)` of a cluster, for the peripheral named
      `name` at `base`: the cluster's base address is recomputed from its
      offset, and its registers are re-pointed at it. */
  function RebasedCluster(c: Cluster, base: int, name: string): Cluster {
    var clusterBase := base + c.addressOffset;
    c.(parentBaseAddress := base, parentName := name, baseAddress := clusterBase,
       registers := RebasedRegisters(c.registers, clusterBase))
  }

  /** Every cluster re-pointed at the peripheral named `name` at `base`. */
  function RebasedClusters(clusters: Dict<Cluster>, base: int, name: string): Dict<Cluster> {
    MapValues(clusters, (c: Cluster) => RebasedCluster(c, base, name))
  }

  /** After rebasing a cluster, its base address is its offset past the
      new peripheral's, and every lookup among its registers finds the
      register it found before, now at that base address plus its
      unchanged offset. */
  lemma RebasedClusterLookup(c: Cluster, base: int, name: string, key: string)
    ensures var r := RebasedCluster(c, base, name);
      && r.baseAddress == base + c.addressOffset
      && r.name == c.name && r.addressOffset == c.addressOffset
      && (Lookup(r.registers, key).Some? <==> Lookup(c.registers, key).Some?)
      && (Lookup(c.registers, key).Some? ==>
            Address(Lookup(r.registers, key).value) == r.baseAddress + Lookup(c.registers, key).value.offset)
  {
    var clusterBase := base + c.addressOffset;
    var r := RebasedCluster(c, base, name);
    assert r.registers == RebasedRegisters(c.registers, clusterBase) && r.baseAddress == clusterBase;
    RebasedRegistersLookup(c.registers, clusterBase, key);
  }

  /** Rebasing the clusters onto the peripheral named `name` at `base`
      keeps the clusters dictionary well formed, makes every cluster one
      of that peripheral, and re-points its registers at its own base
      address, which is its offset past `base`. */
  lemma RebasedClustersIn(clusters: Dict<Cluster>, base: int, name: string)
    requires WellFormed(clusters) && ClustersValid(clusters)
    ensures var r := RebasedClusters(clusters, base, name);
      && WellFormed(r)
      && ClustersIn(r, base, name)
      && r.od.Keys == clusters.od.Keys
      && (forall k :: k in r.od ==> r.od[k].baseAddress == base + r.od[k].addressOffset)
      && (forall k :: k in r.od ==> AllAt(r.od[k].registers, r.od[k].baseAddress))
  {
    MapValuesWellFormed(clusters, (c: Cluster) => RebasedCluster(c, base, name));
    forall k | k in clusters.od
      ensures WellFormed(RebasedCluster(clusters.od[k], base, name).registers)
      ensures AllAt(RebasedCluster(clusters.od[k], base, name).registers, base + clusters.od[k].addressOffset)
    {
      var c := clusters.od[k];
      RebasedRegistersLookup(c.registers, base + c.addressOffset, "");
      RebasedRegistersAt(c.registers, base + c.addressOffset);
    }
  }

  // ---------------------------------------------------------------------
  // The imperative operations

  /** `SVDRegisterCluster.__init__`: the registers are added in a loop. */
  method NewCluster(node: ClusterNode, parentBase: int, parentName: string) returns (r: Result<Cluster, Error>)
    ensures r == ClusterOf(node, parentBase, parentName)
  {
    var offset := ClusterOffsetOf(node);
    if offset.Err? {
      return Err(offset.error);
    }
    var base := offset.value + parentBase;
    if node.name.None? {
      return Err(AttributeError("name"));
    }
    var cs := node.children;
    var registers := new SmartDict<Register>();
    var i := 0;
    while i < |cs|
      invariant 0 <= i <= |cs|
      invariant registers.Valid()
      invariant RegistersFrom(registers.Model(), cs[i..], base) == RegistersFrom(Empty(), cs, base)
    {
      ghost var previous, remaining := registers.Model(), cs[i..];
      assert remaining[0] == cs[i];
      if cs[i].RegisterElem? {
        var error := AddRegister(registers, cs[i].register, base);
        if error.Some? {
          RegistersFromFails(previous, remaining, base);
          return Err(error.value);
        }
      }
      i := i + 1;
      RegistersFromStep(previous, remaining, base, registers.Model(), cs[i..]);
    }
    assert cs[i..] == [];
    return Ok(Cluster(parentBase, parentName, offset.value, base, node.description.GetOr(""), node.name.value, registers.Model()));
  }

  /** `add_cluster(parent, node)` on the peripheral's clusters, updated in
      place. */
  method AddCluster(clusters: SmartDict<Cluster>, node: ClusterNode, parentBase: int, parentName: string) returns (error: Option<Error>)
    requires clusters.Valid()
    modifies clusters
    ensures clusters.Valid()
    ensures error.None? <==> AddClusterTo(old(clusters.Model()), node, parentBase, parentName).Ok?
    ensures error.None? ==> clusters.Model() == AddClusterTo(old(clusters.Model()), node, parentBase, parentName).value
    ensures error.Some? ==> error.value == AddClusterTo(old(clusters.Model()), node, parentBase, parentName).error
  {
    if node.dim.Some? {
      var d := DimensionOf(node.dim.value, node.dimIncrement, node.dimIndex, node.name);
      if d.Err? {
        return Some(d.error);
      }
      error := ExpandInPlace(clusters, ClusterBuilder(node, parentBase, parentName), PlaceCluster,
                             d.value.template, d.value.labels, d.value.increment);
      return;
    }
    var c := NewCluster(node, parentBase, parentName);
    if c.Err? {
      return Some(c.error);
    }
    var _ := clusters.SetItem(c.value.name, c.value);
    return None;
  }

  /** `refactor_parent(parent)` of a cluster. */
  method RefactorCluster(c: Cluster, base: int, name: string) returns (r: Cluster)
    requires WellFormed(c.registers)
    ensures r == RebasedCluster(c, base, name)
  {
    var clusterBase := base + c.addressOffset;
    var registers := RefactorRegisters(c.registers, clusterBase);
    r := c.(parentBaseAddress := base, parentName := name, baseAddress := clusterBase, registers := registers);
  }

  /** The cluster loop of the peripheral's `refactor_parent`: each cluster,
      in key order, is re-pointed at the peripheral. */
  method RefactorClusters(clusters: Dict<Cluster>, base: int, name: string) returns (r: Dict<Cluster>)
    requires WellFormed(clusters) && ClustersValid(clusters)
    ensures r == RebasedClusters(clusters, base, name)
  {
    ghost var rebase := (c: Cluster) => RebasedCluster(c, base, name);
    var od := clusters.od;
    ghost var done: set<string> := {};
    var i := 0;
    while i < |clusters.order|
      invariant 0 <= i <= |clusters.order|
      invariant od.Keys == clusters.od.Keys
      invariant forall j :: 0 <= j < i ==> clusters.order[j] in done
      invariant forall k :: k in clusters.od ==>
        od[k] == if k in done then rebase(clusters.od[k]) else clusters.od[k]
    {
      var k := clusters.order[i];
      assert k in clusters.od;
      var c := RefactorCluster(clusters.od[k], base, name);
      ghost var before, doneBefore := od, done;
      od := od[k := c];
      done := done + {k};
      i := i + 1;
      MapValuesStep(clusters, rebase, before, doneBefore, k);
    }
    MapValuesDone(clusters, rebase, od, done);
    r := Dict(clusters.order, od, clusters.foldOrder, clusters.casemap);
  }
}
