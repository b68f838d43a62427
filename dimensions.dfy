/** Dimensioned nodes (`dim`, `dimIncrement`, `dimIndex`): the index labels,
    the `%s` name template, and the expansion that stores one entry per
    label, each built against the entries stored so far, renamed, and moved
    one stride further than the previous one. Registers and clusters expand
    the same way; what differs (how an entry is built and how it is renamed
    and moved) is passed in as functions. */
module Dimensions {
  import opened Wrappers
  import opened Errors
  import opened Text
  import opened Nodes
  import opened SmartDicts

  /** The labels "0", ..., "n-1". */
  function Indices(n: nat): (labels: seq<string>)
    ensures |labels| == n
    ensures forall i :: 0 <= i < n ==> labels[i] == NatToString(i)
  {
    seq(n, i requires 0 <= i < n => NatToString(i))
  }

  /** The index labels: the comma-separated `dimIndex`, by default the
      comma-joined indices below `dim`. */
  function DimLabels(dimIndex: Option<string>, dim: nat): (labels: seq<string>)
    ensures |labels| >= 1
  {
    Split(dimIndex.GetOr(Join(Indices(dim), ',')), ',')
  }

  /** `name % label`: a TypeError unless the name holds a single `%s`. */
  function TemplateOf(text: string): (r: Result<NameTemplate, Error>)
    ensures r.Ok? ==> text == r.value.prefix + "%s" + r.value.suffix
    ensures r.Err? ==> r.error == TypeError(text)
  {
    match ParseTemplate(text)
    case Some(t) => Ok(t)
    case None => Err(TypeError(text))
  }

  /** What a dimensioned node expands by: its name template, its labels
      and its stride. */
  datatype Dimension = Dimension(template: NameTemplate, labels: seq<string>, increment: nat)

  /** The header of a dimensioned node: `dim` and `dimIncrement` are parsed
      first, then the name template. The source formats the name once per
      label, with the same outcome because there is always a label. */
  function DimensionOf(dim: string, dimIncrement: Option<string>, dimIndex: Option<string>, name: Option<string>): (r: Result<Dimension, Error>)
    ensures r.Ok? ==> |r.value.labels| >= 1
    ensures r.Ok? ==> name == Some(r.value.template.prefix + "%s" + r.value.template.suffix)
    ensures r.Ok? ==> ParseAutoBase(dim).Some? && dimIncrement.Some? && ParseAutoBase(dimIncrement.value) == Some(r.value.increment)
    ensures ParseAutoBase(dim).None? ==> r == Err(ValueError(dim))
    ensures ParseAutoBase(dim).Some? && dimIncrement.None? ==> r == Err(AttributeError("dimIncrement"))
  {
    var count :- AutoIntOf(dim);
    var incrementText :- Required(dimIncrement, "dimIncrement");
    var increment :- AutoIntOf(incrementText);
    var nameText :- Required(name, "name");
    var template :- TemplateOf(nameText);
    Ok(Dimension(template, DimLabels(dimIndex, count), increment))
  }

  /** Without `dimIndex` the labels are the decimal indices below `dim`,
      and a `dim` of 0 still yields one (empty) label. */
  lemma DefaultDimLabels(dim: nat)
    ensures dim > 0 ==> DimLabels(None, dim) == Indices(dim)
    ensures dim == 0 ==> DimLabels(None, dim) == [""]
  {
    var labels := Indices(dim);
    if dim > 0 {
      forall i | 0 <= i < |labels| ensures ',' !in labels[i] {
        assert AllDigits(labels[i]);
      }
      SplitJoin(labels, ',');
    }
  }

  /** The entry names of a dimensioned node: `name % label` per label. */
  function Names(t: NameTemplate, labels: seq<string>): (names: seq<string>)
    ensures |names| == |labels|
    ensures forall j :: 0 <= j < |labels| ==> names[j] == Instantiate(t, labels[j])
  {
    seq(|labels|, j requires 0 <= j < |labels| => Instantiate(t, labels[j]))
  }

  /** Distinct labels give distinct names; a label that no later label
      repeats gives a name that no later name repeats. */
  lemma NamesDistinct(t: NameTemplate, labels: seq<string>)
    ensures Distinct(labels) ==> Distinct(Names(t, labels))
    ensures forall j :: 0 <= j < |labels| && labels[j] !in labels[j + 1..] ==>
      Names(t, labels)[j] !in Names(t, labels)[j + 1..]
  {
    var names := Names(t, labels);
    forall i, j | 0 <= i < |labels| && 0 <= j < |labels| && names[i] == names[j]
      ensures labels[i] == labels[j]
    {
      InstantiateInjective(t, labels[i], labels[j]);
    }
    forall j | 0 <= j < |labels| && labels[j] !in labels[j + 1..]
      ensures names[j] !in names[j + 1..]
    {
      forall i | j < i < |labels| ensures names[i] != names[j] {
        assert labels[i] == labels[j + 1..][i - j - 1];
      }
    }
  }

  // ---------------------------------------------------------------------
  // The expansion

  /** The entries after storing one entry per name: `build` makes an entry
      from the entries stored so far, `place` gives it its name and moves it
      `shift` further, and each next entry moves `increment` further. The
      first failing build stops the expansion. */
  function Expand<T>(d: Dict<T>, build: Dict<T> -> Result<T, Error>, place: (T, string, int) -> T,
                     names: seq<string>, shift: int, increment: int): Result<Dict<T>, Error>
    decreases |names|
  {
    if names == [] then Ok(d)
    else match build(d)
      case Err(e) => Err(e)
      case Ok(x) => Expand(Insert(d, names[0], place(x, names[0], shift)), build, place, names[1..], shift + increment, increment)
  }

  /** One step of the expansion. */
  lemma ExpandStep<T>(d: Dict<T>, build: Dict<T> -> Result<T, Error>, place: (T, string, int) -> T,
                      names: seq<string>, shift: int, increment: int)
    requires names != []
    ensures build(d).Err? ==> Expand(d, build, place, names, shift, increment) == Err(build(d).error)
    ensures build(d).Ok? ==> (Expand(d, build, place, names, shift, increment) ==
      Expand(Insert(d, names[0], place(build(d).value, names[0], shift)), build, place, names[1..], shift + increment, increment))
  {
  }

  /** One step of the expansion, from the entries `d` stored before it to
      the entries `next` stored after it, with the names `rest` still to
      come at `nextShift`. */
  lemma ExpandAdvance<T>(d: Dict<T>, build: Dict<T> -> Result<T, Error>, place: (T, string, int) -> T,
                         names: seq<string>, shift: int, increment: int, x: T,
                         next: Dict<T>, rest: seq<string>, nextShift: int)
    requires names != [] && build(d) == Ok(x)
    requires next == Insert(d, names[0], place(x, names[0], shift))
    requires rest == names[1..] && nextShift == shift + increment
    ensures Expand(d, build, place, names, shift, increment) == Expand(next, build, place, rest, nextShift, increment)
  {
  }

  /** The entries a run of the expansion places, in order, when each one is
      stored into the entries by `store`. */
  function Placed<T>(d: Dict<T>, build: Dict<T> -> Result<T, Error>, place: (T, string, int) -> T,
                     store: (Dict<T>, string, T) -> Dict<T>, names: seq<string>, shift: int, increment: int): seq<T>
    decreases |names|
  {
    if names == [] || build(d).Err? then []
    else
      var x := place(build(d).value, names[0], shift);
      [x] + Placed(store(d, names[0], x), build, place, store, names[1..], shift + increment, increment)
  }

  /** The expansion is a run of insertions of the placed entries under the
      given names. */
  lemma {:induction false} ExpandInserts<T>(d: Dict<T>, build: Dict<T> -> Result<T, Error>, place: (T, string, int) -> T,
                                            names: seq<string>, shift: int, increment: int)
    requires Expand(d, build, place, names, shift, increment).Ok?
    ensures |Placed(d, build, place, Insert, names, shift, increment)| == |names|
    ensures Expand(d, build, place, names, shift, increment).value ==
      InsertAll(d, names, Placed(d, build, place, Insert, names, shift, increment))
    decreases |names|
  {
    if names != [] {
      var x := place(build(d).value, names[0], shift);
      var next := Insert(d, names[0], x);
      ExpandInserts(next, build, place, names[1..], shift + increment, increment);
      var values := Placed(next, build, place, Insert, names[1..], shift + increment, increment);
      assert ([x] + values)[0] == x && ([x] + values)[1..] == values;
    }
  }

  /** The entries stored before name j, against which the entry of name j
      is built. */
  function Before<T>(d: Dict<T>, build: Dict<T> -> Result<T, Error>, place: (T, string, int) -> T,
                     store: (Dict<T>, string, T) -> Dict<T>, names: seq<string>, shift: int, increment: int, j: nat): Dict<T>
    decreases j
  {
    if j == 0 || names == [] || build(d).Err? then d
    else Before(store(d, names[0], place(build(d).value, names[0], shift)), build, place, store, names[1..], shift + increment, increment, j - 1)
  }

  /** The shift of entry j: `increment` past the shift of entry j - 1. */
  function Position(shift: int, increment: int, j: nat): (r: int)
    decreases j
  {
    if j == 0 then shift else Position(shift + increment, increment, j - 1)
  }

  /** Entry j sits `j * increment` past the first. */
  lemma {:induction false} PositionIs(shift: int, increment: int, j: nat)
    ensures Position(shift, increment, j) == shift + j * increment
    decreases j
  {
    if j > 0 {
      PositionIs(shift + increment, increment, j - 1);
      assert (j - 1) * increment + increment == j * increment;
    }
  }

  /** The entry placed for name j is the one `build` made from the entries
      stored before it, placed at shift `Position(shift, increment, j)`. */
  lemma {:induction false} PlacedAt<T>(d: Dict<T>, build: Dict<T> -> Result<T, Error>, place: (T, string, int) -> T,
                                       store: (Dict<T>, string, T) -> Dict<T>, names: seq<string>, shift: int, increment: int, j: nat)
    requires j < |names| && j < |Placed(d, build, place, store, names, shift, increment)|
    ensures build(Before(d, build, place, store, names, shift, increment, j)).Ok?
    ensures Placed(d, build, place, store, names, shift, increment)[j] ==
      place(build(Before(d, build, place, store, names, shift, increment, j)).value, names[j], Position(shift, increment, j))
    decreases j
  {
    assert build(d).Ok?;
    var x := place(build(d).value, names[0], shift);
    var next := store(d, names[0], x);
    var rest := Placed(next, build, place, store, names[1..], shift + increment, increment);
    assert Placed(d, build, place, store, names, shift, increment) == [x] + rest;
    if j > 0 {
      assert Before(d, build, place, store, names, shift, increment, j) ==
        Before(next, build, place, store, names[1..], shift + increment, increment, j - 1);
      PlacedAt(next, build, place, store, names[1..], shift + increment, increment, j - 1);
      assert names[1..][j - 1] == names[j];
    }
  }

  /** The entry stored under name j, unless a later name repeats it, is the
      one `build` made from the entries stored before it, placed under that
      name at shift `Position(shift, increment, j)`. */
  lemma ExpandEntry<T>(d: Dict<T>, build: Dict<T> -> Result<T, Error>, place: (T, string, int) -> T,
                       names: seq<string>, shift: int, increment: int, j: nat)
    requires Expand(d, build, place, names, shift, increment).Ok?
    requires j < |names| && names[j] !in names[j + 1..]
    ensures var r := Expand(d, build, place, names, shift, increment).value;
      var s := Before(d, build, place, Insert, names, shift, increment, j);
      && build(s).Ok?
      && names[j] in r.od
      && r.od[names[j]] == place(build(s).value, names[j], Position(shift, increment, j))
  {
    ExpandInserts(d, build, place, names, shift, increment);
    PlacedAt(d, build, place, Insert, names, shift, increment, j);
    InsertAllEntry(d, names, Placed(d, build, place, Insert, names, shift, increment), j);
  }

  /** Every entry of the expansion has a property `p` when every entry
      already there has it and every entry `build` and `place` can make
      has it. */
  lemma ExpandAll<T>(d: Dict<T>, build: Dict<T> -> Result<T, Error>, place: (T, string, int) -> T,
                     names: seq<string>, shift: int, increment: int, p: T -> bool)
    requires Expand(d, build, place, names, shift, increment).Ok?
    requires AllHave(d.od, p)
    requires forall e: Dict<T>, n: string, s: int :: build(e).Ok? ==> p(place(build(e).value, n, s))
    ensures AllHave(Expand(d, build, place, names, shift, increment).value.od, p)
  {
    ExpandInserts(d, build, place, names, shift, increment);
    var values := Placed(d, build, place, Insert, names, shift, increment);
    forall j | 0 <= j < |values| ensures p(values[j]) {
      PlacedAt(d, build, place, Insert, names, shift, increment, j);
    }
    InsertAllHave(d, names, values, p);
  }

  /** The expansion on a well-formed dictionary: the result is
      well-formed; it holds exactly the old keys and the names; every entry
      not named is unchanged; and with distinct new names, the entry count
      grows by the number of names. */
  lemma Expanded<T>(d: Dict<T>, build: Dict<T> -> Result<T, Error>, place: (T, string, int) -> T,
                    names: seq<string>, shift: int, increment: int)
    requires WellFormed(d)
    requires Expand(d, build, place, names, shift, increment).Ok?
    ensures var r := Expand(d, build, place, names, shift, increment).value;
      && WellFormed(r)
      && (forall k :: k in r.od <==> k in d.od || k in names)
      && (forall k :: k in d.od && k !in names ==> r.od[k] == d.od[k])
      && (Distinct(names) && (forall j :: 0 <= j < |names| ==> names[j] !in d.od) ==> |r.od| == |d.od| + |names|)
  {
    ExpandInserts(d, build, place, names, shift, increment);
    var values := Placed(d, build, place, Insert, names, shift, increment);
    InsertAllWellFormed(d, names, values);
    InsertAllKeys(d, names, values);
    forall k | k in d.od && k !in names {
      InsertAllKeep(d, names, values, k);
    }
    if Distinct(names) && (forall j :: 0 <= j < |names| ==> names[j] !in d.od) {
      InsertAllCount(d, names, values);
    }
  }

  /** The label loop of a dimensioned node, on a SmartDict updated in
      place: per label, the entry is built against the entries stored so
      far, placed under `name % label` at the offset accumulator, and the
      accumulator grows by the stride. */
  method ExpandInPlace<T>(entries: SmartDict<T>, build: Dict<T> -> Result<T, Error>, place: (T, string, int) -> T,
                          t: NameTemplate, labels: seq<string>, increment: int) returns (error: Option<Error>)
    requires entries.Valid()
    modifies entries
    ensures entries.Valid()
    ensures var spec := Expand(old(entries.Model()), build, place, Names(t, labels), 0, increment);
      && (error.None? <==> spec.Ok?)
      && (error.None? ==> entries.Model() == spec.value)
      && (error.Some? ==> error.value == spec.error)
  {
    ghost var names := Names(t, labels);
    ghost var spec := Expand(entries.Model(), build, place, names, 0, increment);
    var offset := 0;
    var i := 0;
    while i < |labels|
      invariant 0 <= i <= |labels|
      invariant entries.Valid()
      invariant Expand(entries.Model(), build, place, names[i..], offset, increment) == spec
    {
      var name := Instantiate(t, labels[i]);
      var x := build(entries.Model());
      if x.Err? {
        assert names[i..][0] == name;
        ExpandStep(entries.Model(), build, place, names[i..], offset, increment);
        return Some(x.error);
      }
      var previous, shift := entries.Model(), offset;
      ghost var remaining := names[i..];
      var _ := entries.SetItem(name, place(x.value, name, shift));
      offset := offset + increment;
      i := i + 1;
      ExpandAdvance(previous, build, place, remaining, shift, increment, x.value, entries.Model(), names[i..], offset);
    }
    assert names[i..] == [];
    return None;
  }
}
