/** The SVD document as the loader sees it: one datatype per element kind,
    with an `Option` for every child element or attribute the loader probes
    with `hasattr`/`getattr`, holding that element's text. Children whose
    tag the loader filters on are wrapped in a variant per tag. */
module Nodes {
  import opened Wrappers
  import opened Errors
  import opened Text

  /** `<enumeratedValue>`: `name`, `description`, `value`. */
  datatype EnumValueNode = EnumValueNode(name: Option<string>, description: Option<string>, value: Option<string>)

  /** A child of `<enumeratedValues>`. */
  datatype EnumChild = EnumValueElem(enumValue: EnumValueNode) | OtherEnumChild(tag: string)

  /** `<field>`: the three bit-range encodings are `bitOffset`+`bitWidth`,
      `bitRange` and `lsb`+`msb`. */
  datatype FieldNode = FieldNode(
    name: Option<string>,
    description: Option<string>,
    bitOffset: Option<string>,
    bitWidth: Option<string>,
    bitRange: Option<string>,
    lsb: Option<string>,
    msb: Option<string>,
    access: Option<string>,
    enumeratedValues: Option<seq<EnumChild>>)

  /** A child of `<fields>`. */
  datatype FieldChild = FieldElem(field: FieldNode) | OtherFieldChild(tag: string)

  /** `<register>`; `derivedFrom` is its attribute. */
  datatype RegisterNode = RegisterNode(
    name: Option<string>,
    description: Option<string>,
    addressOffset: Option<string>,
    access: Option<string>,
    size: Option<string>,
    dim: Option<string>,
    dimIncrement: Option<string>,
    dimIndex: Option<string>,
    alternateGroup: Option<string>,
    derivedFrom: Option<string>,
    fields: Option<seq<FieldChild>>)

  /** `<cluster>`: its children in document order. */
  datatype ClusterNode = ClusterNode(
    name: Option<string>,
    description: Option<string>,
    addressOffset: Option<string>,
    dim: Option<string>,
    dimIncrement: Option<string>,
    dimIndex: Option<string>,
    children: seq<RegisterBlock>)

  /** A child of `<registers>` or of `<cluster>`. */
  datatype RegisterBlock = RegisterElem(register: RegisterNode) | ClusterElem(cluster: ClusterNode) | OtherElem(tag: string)

  /** `<peripheral>`; `derivedFrom` is its attribute. */
  datatype PeripheralNode = PeripheralNode(
    name: Option<string>,
    description: Option<string>,
    baseAddress: Option<string>,
    derivedFrom: Option<string>,
    registers: Option<seq<RegisterBlock>>)

  /** A child of `<peripherals>`. */
  datatype PeripheralChild = PeripheralElem(peripheral: PeripheralNode) | OtherPeripheralChild(tag: string)

  /** `str(node.attribute)`: an AttributeError when the child is absent. */
  function Required(x: Option<string>, attribute: string): (r: Result<string, Error>)
    ensures r.Ok? <==> x.Some?
  {
    match x
    case Some(text) => Ok(text)
    case None => Err(AttributeError(attribute))
  }

  /** `int(text)`. */
  function IntOf(text: string): (r: Result<int, Error>)
    ensures r.Ok? ==> AllDigits(text) && r.value >= 0
  {
    match ParseDecimal(text)
    case Some(n) => Ok(n)
    case None => Err(ValueError(text))
  }

  /** `int(text, 0)`. */
  function AutoIntOf(text: string): (r: Result<nat, Error>)
    ensures r.Ok? <==> ParseAutoBase(text).Some?
  {
    match ParseAutoBase(text)
    case Some(n) => Ok(n)
    case None => Err(ValueError(text))
  }
}
