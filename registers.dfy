/** SVDPeripheralRegister and `add_register`: building a register from its
    node (directly or by `derivedFrom` from a sibling), expanding a
    dimensioned register into one entry per index label, and re-pointing a
    register at a new parent base address. */
module Registers {
  import opened Wrappers
  import opened Errors
  import opened Text
  import opened Nodes
  import opened SmartDicts
  import opened Fields
  import opened Dimensions

  /** A register's `size`: the node's text when it has one, else the
      integer default 0x20. */
  datatype Size = SizeText(text: string) | SizeBits(bits: int)

  datatype Register = Register(
    parentBaseAddress: int,
    name: string,
    description: string,
    offset: int,
    access: string,
    size: Size,
    fields: Dict<Field>)

  /** `address()`. */
  function Address(r: Register): int {
    r.parentBaseAddress + r.offset
  }

  /** `int(str(node.addressOffset), 0)`. */
  function OffsetOf(node: RegisterNode): Result<nat, Error> {
    var text :- Required(node.addressOffset, "addressOffset");
    AutoIntOf(text)
  }

  function SizeOf(node: RegisterNode): Size {
    match node.size
    case Some(text) => SizeText(text)
    case None => SizeBits(0x20)
  }

  /** The fields dictionary after the `<fields>` children `cs`: each
      `<field>` is stored under its name, the others are skipped. */
  function FieldsFrom(fields: Dict<Field>, cs: seq<FieldChild>, access: string): Result<Dict<Field>, Error>
    decreases |cs|
  {
    if cs == [] then Ok(fields)
    else match cs[0]
      case OtherFieldChild(_) => FieldsFrom(fields, cs[1..], access)
      case FieldElem(node) =>
        var field :- FieldOf(node, access);
        FieldsFrom(Insert(fields, field.name, field), cs[1..], access)
  }

  /** The register a `<register>` node describes inside a parent whose base
      address is `base` and whose registers so far are `siblings`. A derived
      register takes its name (when it has none) and its fields from the
      sibling `derivedFrom` names; its description, access and size come
      from its own node or the defaults, never from that sibling. */
  function RegisterOf(node: RegisterNode, base: int, siblings: Dict<Register>): Result<Register, Error> {
    var offset :- OffsetOf(node);
    var description := node.description.GetOr("");
    var access := node.access.GetOr("read-write");
    if node.derivedFrom.Some? then
      var source :- Fetch(siblings, node.derivedFrom.value);
      Ok(Register(base, node.name.GetOr(source.name), description, offset, access, SizeOf(node), source.fields))
    else
      var name :- Required(node.name, "name");
      var fields :- FieldsFrom(Empty(), node.fields.GetOr([]), access);
      Ok(Register(base, name, description, offset, access, SizeOf(node), fields))
  }

  // ---------------------------------------------------------------------
  // Properties of a single register

  /** What a built register holds: the parent's base, the parsed offset, the
      node's own description, access and size or their defaults, and for a
      derived register the sibling's fields (and name, when the node has
      none). A register built from a node without `derivedFrom` has a
      `name`. */
  lemma RegisterContents(node: RegisterNode, base: int, siblings: Dict<Register>)
    requires RegisterOf(node, base, siblings).Ok?
    ensures var r := RegisterOf(node, base, siblings).value;
      && OffsetOf(node) == Ok(r.offset)
      && r.parentBaseAddress == base
      && Address(r) == base + r.offset
      && r.description == node.description.GetOr("")
      && r.access == node.access.GetOr("read-write")
      && (node.size.None? ==> r.size == SizeBits(32))
      && (node.size.Some? ==> r.size == SizeText(node.size.value))
      && (node.name.Some? ==> r.name == node.name.value)
      && (node.derivedFrom.None? ==> node.name.Some?)
      && (node.derivedFrom.Some? ==>
            && Lookup(siblings, node.derivedFrom.value).Some?
            && r.fields == Lookup(siblings, node.derivedFrom.value).value.fields
            && (node.name.None? ==> r.name == Lookup(siblings, node.derivedFrom.value).value.name))
  {
  }

  /** A derived register fails exactly when its source cannot be found by
      any lookup tier (or its own offset is unreadable). */
  lemma DerivedRegisterSource(node: RegisterNode, base: int, siblings: Dict<Register>)
    requires node.derivedFrom.Some? && OffsetOf(node).Ok?
    ensures RegisterOf(node, base, siblings).Ok? <==> Lookup(siblings, node.derivedFrom.value).Some?
    ensures RegisterOf(node, base, siblings).Err? ==>
      RegisterOf(node, base, siblings).error == KeyError(node.derivedFrom.value)
  {
  }

  /** The fields dictionary stays well formed. */
  lemma {:induction false} FieldsFromWellFormed(fields: Dict<Field>, cs: seq<FieldChild>, access: string)
    requires WellFormed(fields)
    requires FieldsFrom(fields, cs, access).Ok?
    ensures WellFormed(FieldsFrom(fields, cs, access).value)
    decreases |cs|
  {
    if cs != [] {
      if cs[0].FieldElem? {
        var field := FieldOf(cs[0].field, access).value;
        InsertWellFormed(fields, field.name, field);
        FieldsFromWellFormed(Insert(fields, field.name, field), cs[1..], access);
      } else {
        FieldsFromWellFormed(fields, cs[1..], access);
      }
    }
  }

  /** Besides the keys already there, the fields dictionary holds exactly
      the names of the `<field>` children. */
  lemma {:induction false} FieldsFromKeys(fields: Dict<Field>, cs: seq<FieldChild>, access: string)
    requires FieldsFrom(fields, cs, access).Ok?
    ensures forall k :: k in FieldsFrom(fields, cs, access).value.od <==>
      k in fields.od || exists i :: 0 <= i < |cs| && cs[i].FieldElem? && cs[i].field.name == Some(k)
    decreases |cs|
  {
    if cs != [] {
      var rest := cs[1..];
      var next := fields;
      if cs[0].FieldElem? {
        var field := FieldOf(cs[0].field, access).value;
        next := Insert(fields, field.name, field);
      }
      assert FieldsFrom(fields, cs, access) == FieldsFrom(next, rest, access);
      FieldsFromKeys(next, rest, access);
      forall k | exists i :: 0 <= i < |cs| && cs[i].FieldElem? && cs[i].field.name == Some(k)
        ensures k in FieldsFrom(fields, cs, access).value.od
      {
        var i :| 0 <= i < |cs| && cs[i].FieldElem? && cs[i].field.name == Some(k);
        if i > 0 {
          assert rest[i - 1] == cs[i];
        }
      }
      forall k | exists i :: 0 <= i < |rest| && rest[i].FieldElem? && rest[i].field.name == Some(k)
        ensures exists i :: 0 <= i < |cs| && cs[i].FieldElem? && cs[i].field.name == Some(k)
      {
        var i :| 0 <= i < |rest| && rest[i].FieldElem? && rest[i].field.name == Some(k);
        assert cs[i + 1] == rest[i];
      }
    }
  }

  /** Each field is stored under its name, the last `<field>` of a name
      winning, and its access defaults to the register's. */
  lemma {:induction false} FieldsFromLastWins(fields: Dict<Field>, cs: seq<FieldChild>, access: string, i: nat, k: string)
    requires FieldsFrom(fields, cs, access).Ok?
    requires i < |cs| && cs[i].FieldElem? && cs[i].field.name == Some(k)
    requires forall j :: i < j < |cs| && cs[j].FieldElem? ==> cs[j].field.name != Some(k)
    ensures FieldOf(cs[i].field, access).Ok?
    ensures k in FieldsFrom(fields, cs, access).value.od
    ensures FieldsFrom(fields, cs, access).value.od[k] == FieldOf(cs[i].field, access).value
    ensures FieldsFrom(fields, cs, access).value.od[k].access == cs[i].field.access.GetOr(access)
    decreases |cs|
  {
    var rest := cs[1..];
    assert forall j :: 1 <= j < |cs| ==> cs[j] == rest[j - 1];
    if i == 0 {
      var field := FieldOf(cs[0].field, access).value;
      FieldsFromKeep(Insert(fields, field.name, field), rest, access, k);
    } else if cs[0].FieldElem? {
      var field := FieldOf(cs[0].field, access).value;
      FieldsFromLastWins(Insert(fields, field.name, field), rest, access, i - 1, k);
    } else {
      FieldsFromLastWins(fields, rest, access, i - 1, k);
    }
  }

  /** An entry that no later `<field>` names keeps its value. */
  lemma {:induction false} FieldsFromKeep(fields: Dict<Field>, cs: seq<FieldChild>, access: string, k: string)
    requires FieldsFrom(fields, cs, access).Ok?
    requires k in fields.od
    requires forall i :: 0 <= i < |cs| && cs[i].FieldElem? ==> cs[i].field.name != Some(k)
    ensures k in FieldsFrom(fields, cs, access).value.od
    ensures FieldsFrom(fields, cs, access).value.od[k] == fields.od[k]
    decreases |cs|
  {
    if cs != [] {
      var rest := cs[1..];
      assert forall i :: 1 <= i < |cs| ==> cs[i] == rest[i - 1];
      match cs[0]
      case OtherFieldChild(_) =>
        FieldsFromKeep(fields, rest, access, k);
      case FieldElem(node) =>
        var field := FieldOf(node, access).value;
        FieldsFromKeep(Insert(fields, field.name, field), rest, access, k);
    }
  }

  // ---------------------------------------------------------------------
  // Dimensioned expansion (`dim`, `dimIncrement`, `dimIndex`)

  /** How each register of a dimensioned node is built: from the node,
      against the registers stored so far. */
  function RegisterBuilder(node: RegisterNode, base: int): Dict<Register> -> Result<Register, Error> {
    (regs: Dict<Register>) => RegisterOf(node, base, regs)
  }

  /** A register of a dimensioned node, renamed and moved `shift` past its
      own offset. */
  function PlaceRegister(r: Register, name: string, shift: int): Register {
    r.(name := name, offset := r.offset + shift)
  }

  /** `add_register(parent, node)` on the parent's registers `regs`: a
      dimensioned node stores one register per label; any other node is
      stored under its name only when no lookup tier finds that name. */
  function AddRegisterTo(regs: Dict<Register>, node: RegisterNode, base: int): Result<Dict<Register>, Error> {
    if node.dim.Some? then
      var d :- DimensionOf(node.dim.value, node.dimIncrement, node.dimIndex, node.name);
      Expand(regs, RegisterBuilder(node, base), PlaceRegister, Names(d.template, d.labels), 0, d.increment)
    else
      var reg :- RegisterOf(node, base, regs);
      var name :- Required(node.name, "name");
      if Has(regs, name) then Ok(regs) else Ok(Insert(regs, name, reg))
  }

  /** `add_register` for a node with `dim`: it adds exactly the names
      `name % label`, every other register is unchanged, and with distinct
      labels whose names are new the number of registers grows by the
      number of labels. */
  lemma DimensionedRegisters(regs: Dict<Register>, node: RegisterNode, base: int)
    requires WellFormed(regs)
    requires node.dim.Some? && AddRegisterTo(regs, node, base).Ok?
    ensures DimensionOf(node.dim.value, node.dimIncrement, node.dimIndex, node.name).Ok?
    ensures var d := DimensionOf(node.dim.value, node.dimIncrement, node.dimIndex, node.name).value;
      var names := Names(d.template, d.labels);
      var r := AddRegisterTo(regs, node, base).value;
      && WellFormed(r)
      && (forall k :: k in r.od <==> k in regs.od || k in names)
      && (forall k :: k in regs.od && k !in names ==> r.od[k] == regs.od[k])
      && (Distinct(d.labels) && (forall j :: 0 <= j < |names| ==> names[j] !in regs.od) ==> |r.od| == |regs.od| + |names|)
  {
    var d := DimensionOf(node.dim.value, node.dimIncrement, node.dimIndex, node.name).value;
    var names := Names(d.template, d.labels);
    Expanded(regs, RegisterBuilder(node, base), PlaceRegister, names, 0, d.increment);
    NamesDistinct(d.template, d.labels);
  }

  /** The register of label j of a dimensioned node, unless a later label
      repeats it, is named `name % label` and sits `j * dimIncrement` past
      the node's own offset. */
  lemma DimensionedRegister(regs: Dict<Register>, node: RegisterNode, base: int, j: nat)
    requires node.dim.Some? && AddRegisterTo(regs, node, base).Ok?
    ensures DimensionOf(node.dim.value, node.dimIncrement, node.dimIndex, node.name).Ok?
    ensures var d := DimensionOf(node.dim.value, node.dimIncrement, node.dimIndex, node.name).value;
      j < |d.labels| && d.labels[j] !in d.labels[j + 1..] ==>
        var name := Instantiate(d.template, d.labels[j]);
        var r := AddRegisterTo(regs, node, base).value;
        && name in r.od
        && r.od[name].name == name
        && r.od[name].offset == OffsetOf(node).value + j * d.increment
  {
    var d := DimensionOf(node.dim.value, node.dimIncrement, node.dimIndex, node.name).value;
    var names := Names(d.template, d.labels);
    if j < |d.labels| && d.labels[j] !in d.labels[j + 1..] {
      NamesDistinct(d.template, d.labels);
      var build := RegisterBuilder(node, base);
      ExpandEntry(regs, build, PlaceRegister, names, 0, d.increment, j);
      var s := Before(regs, build, PlaceRegister, Insert, names, 0, d.increment, j);
      assert build(s) == RegisterOf(node, base, s);
      RegisterContents(node, base, s);
      PositionIs(0, d.increment, j);
    }
  }

  /** A node without `dim` is stored only when no lookup tier finds its
      name; otherwise the registers are unchanged. */
  lemma AddRegisterGuard(regs: Dict<Register>, node: RegisterNode, base: int)
    requires node.dim.None?
    requires AddRegisterTo(regs, node, base).Ok?
    ensures node.name.Some? && RegisterOf(node, base, regs).Ok?
    ensures Has(regs, node.name.value) ==> AddRegisterTo(regs, node, base).value == regs
    ensures !Has(regs, node.name.value) ==>
      var r := AddRegisterTo(regs, node, base).value;
      && r.od == regs.od[node.name.value := RegisterOf(node, base, regs).value]
      && r.od[node.name.value].name == node.name.value
  {
    RegisterContents(node, base, regs);
  }

  /** `add_register` keeps the registers dictionary well formed. */
  lemma AddRegisterWellFormed(regs: Dict<Register>, node: RegisterNode, base: int)
    requires WellFormed(regs) && AddRegisterTo(regs, node, base).Ok?
    ensures WellFormed(AddRegisterTo(regs, node, base).value)
  {
    if node.dim.Some? {
      DimensionedRegisters(regs, node, base);
    } else {
      var reg := RegisterOf(node, base, regs).value;
      InsertWellFormed(regs, node.name.value, reg);
    }
  }

  /** Every register of `regs` points at the parent base address `base`. */
  ghost predicate AllAt(regs: Dict<Register>, base: int) {
    forall k :: k in regs.od ==> regs.od[k].parentBaseAddress == base
  }

  /** `add_register` builds every register against its parent's base
      address, a dimensioned one too. */
  lemma AddRegisterAt(regs: Dict<Register>, node: RegisterNode, base: int)
    requires AllAt(regs, base) && AddRegisterTo(regs, node, base).Ok?
    ensures AllAt(AddRegisterTo(regs, node, base).value, base)
  {
    if node.dim.Some? {
      var d := DimensionOf(node.dim.value, node.dimIncrement, node.dimIndex, node.name).value;
      var build := RegisterBuilder(node, base);
      forall e: Dict<Register>, n: string, s: int | build(e).Ok?
        ensures PlaceRegister(build(e).value, n, s).parentBaseAddress == base
      {
        RegisterContents(node, base, e);
      }
      var at := (r: Register) => r.parentBaseAddress == base;
      assert AllHave(regs.od, at);
      ExpandAll(regs, build, PlaceRegister, Names(d.template, d.labels), 0, d.increment, at);
    } else {
      RegisterContents(node, base, regs);
    }
  }

  /** A register `CR` with no `dim` is dropped when `CR1` is already there:
      the prefix tier of `in` finds `CR1`. */
  lemma PrefixGuardExample(x: Register, node: RegisterNode)
    requires node == RegisterNode(Some("CR"), None, Some("4"), None, None, None, None, None, None, None, None)
    ensures AddRegisterTo(Insert(Empty(), "CR1", x), node, 0) == Ok(Insert(Empty(), "CR1", x))
  {
    PrefixFindsCR1(x);
    assert "4"[..0] == "";
    assert ParseAutoBase("4") == Some(4);
  }

  /** `"CR" in regs` holds once `CR1` is stored: through the prefix tier. */
  lemma PrefixFindsCR1(x: Register)
    ensures Has(Insert(Empty(), "CR1", x), "CR")
  {
    var regs := Insert(Empty(), "CR1", x);
    assert Lower("CR1") == "cr1" && Lower("CR") == "cr";
    assert regs.foldOrder == ["cr1"] && regs.casemap == map["cr1" := "CR1"];
    SplitKeyUnique("cr", "cr", "");
    assert KeyMatches("cr1", "cr", "");
    assert MatchesIn(["cr1"], regs.casemap, "cr", "") == ["CR1"];
  }

  // ---------------------------------------------------------------------
  // Rebasing (`refactor_parent`)

  /** `refactor_parent(parent)` of a register: only its parent base changes. */
  function RebasedRegister(r: Register, base: int): Register {
    r.(parentBaseAddress := base)
  }

  /** Every register of `regs` re-pointed at `base`. */
  function RebasedRegisters(regs: Dict<Register>, base: int): Dict<Register> {
    MapValues(regs, (r: Register) => RebasedRegister(r, base))
  }

  /** After rebasing, every register points at `base`. */
  lemma RebasedRegistersAt(regs: Dict<Register>, base: int)
    ensures AllAt(RebasedRegisters(regs, base), base)
  {
  }

  /** After rebasing, every lookup finds the register it found before, with
      the same offset, and its address is `base` plus that offset. */
  lemma RebasedRegistersLookup(regs: Dict<Register>, base: int, key: string)
    ensures WellFormed(regs) ==> WellFormed(RebasedRegisters(regs, base))
    ensures Lookup(RebasedRegisters(regs, base), key).Some? <==> Lookup(regs, key).Some?
    ensures Lookup(regs, key).Some? ==>
      var r := Lookup(RebasedRegisters(regs, base), key).value;
      && r == Lookup(regs, key).value.(parentBaseAddress := base)
      && Address(r) == base + Lookup(regs, key).value.offset
  {
    if WellFormed(regs) {
      MapValuesWellFormed(regs, (r: Register) => RebasedRegister(r, base));
    }
    MapValuesLookup(regs, (r: Register) => RebasedRegister(r, base), key);
  }

  // ---------------------------------------------------------------------
  // The imperative operations

  /** `SVDPeripheralRegister.__init__`: the fields are filled in a loop. */
  method NewRegister(node: RegisterNode, base: int, siblings: Dict<Register>) returns (r: Result<Register, Error>)
    ensures r == RegisterOf(node, base, siblings)
  {
    var offset := OffsetOf(node);
    if offset.Err? {
      return Err(offset.error);
    }
    var description := node.description.GetOr("");
    var access := node.access.GetOr("read-write");
    if node.derivedFrom.Some? {
      var source := Fetch(siblings, node.derivedFrom.value);
      if source.Err? {
        return Err(source.error);
      }
      var name := node.name.GetOr(source.value.name);
      return Ok(Register(base, name, description, offset.value, access, SizeOf(node), source.value.fields));
    }
    if node.name.None? {
      return Err(AttributeError("name"));
    }
    var cs := node.fields.GetOr([]);
    var fields := new SmartDict<Field>();
    var i := 0;
    while i < |cs|
      invariant 0 <= i <= |cs|
      invariant fields.Valid()
      invariant FieldsFrom(fields.Model(), cs[i..], access) == FieldsFrom(Empty(), cs, access)
    {
      assert cs[i..][1..] == cs[i + 1..];
      if cs[i].FieldElem? {
        var field := NewField(cs[i].field, access);
        if field.Err? {
          return Err(field.error);
        }
        var _ := fields.SetItem(field.value.name, field.value);
      }
      i := i + 1;
    }
    assert cs[i..] == [];
    return Ok(Register(base, node.name.value, description, offset.value, access, SizeOf(node), fields.Model()));
  }

  /** `add_register(parent, node)` on the parent's registers, updated in
      place. */
  method AddRegister(registers: SmartDict<Register>, node: RegisterNode, base: int) returns (error: Option<Error>)
    requires registers.Valid()
    modifies registers
    ensures registers.Valid()
    ensures error.None? <==> AddRegisterTo(old(registers.Model()), node, base).Ok?
    ensures error.None? ==> registers.Model() == AddRegisterTo(old(registers.Model()), node, base).value
    ensures error.Some? ==> error.value == AddRegisterTo(old(registers.Model()), node, base).error
  {
    if node.dim.Some? {
      var d := DimensionOf(node.dim.value, node.dimIncrement, node.dimIndex, node.name);
      if d.Err? {
        return Some(d.error);
      }
      error := ExpandInPlace(registers, RegisterBuilder(node, base), PlaceRegister, d.value.template, d.value.labels, d.value.increment);
      return;
    }
    var reg := NewRegister(node, base, registers.Model());
    if reg.Err? {
      return Some(reg.error);
    }
    if node.name.None? {
      return Some(AttributeError("name"));
    }
    var present := registers.Contains(node.name.value);
    if !present {
      var _ := registers.SetItem(node.name.value, reg.value);
    }
    return None;
  }

  /** The register loop of `refactor_parent`: each register of `regs`, in
      key order, is re-pointed at `base`. */
  method RefactorRegisters(regs: Dict<Register>, base: int) returns (r: Dict<Register>)
    requires WellFormed(regs)
    ensures r == RebasedRegisters(regs, base)
  {
    ghost var rebase := (r: Register) => RebasedRegister(r, base);
    var od := regs.od;
    ghost var done: set<string> := {};
    var i := 0;
    while i < |regs.order|
      invariant 0 <= i <= |regs.order|
      invariant od.Keys == regs.od.Keys
      invariant forall j :: 0 <= j < i ==> regs.order[j] in done
      invariant forall k :: k in regs.od ==>
        od[k] == if k in done then rebase(regs.od[k]) else regs.od[k]
    {
      var k := regs.order[i];
      assert k in regs.od;
      ghost var before, doneBefore := od, done;
      od := od[k := RebasedRegister(regs.od[k], base)];
      done := done + {k};
      i := i + 1;
      MapValuesStep(regs, rebase, before, doneBefore, k);
    }
    MapValuesDone(regs, rebase, od, done);
    r := Dict(regs.order, od, regs.foldOrder, regs.casemap);
  }
}
