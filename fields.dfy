/** SVDPeripheralRegisterField: a bit field of a register, its bit span
    taken from one of three encodings and its enumerated-value table. */
module Fields {
  import opened Wrappers
  import opened Errors
  import opened Text
  import opened Nodes

  /** One row of the enumerated-value table: `(name, description)`. */
  datatype EnumEntry = EnumEntry(name: string, description: string)

  datatype Field = Field(
    name: string,
    description: string,
    offset: int,
    width: int,
    access: string,
    enumValues: map<int, EnumEntry>)

  datatype BitSpan = BitSpan(offset: int, width: int)

  /** `readable()` of registers and fields. */
  predicate Readable(access: string) {
    access in ["read-only", "read-write", "read-writeOnce"]
  }

  /** `writable()` of registers and fields. */
  predicate Writable(access: string) {
    access in ["write-only", "read-write", "writeOnce", "read-writeOnce"]
  }

  /** How the five access values of CMSIS-SVD read; any other text is
      neither readable nor writable. */
  lemma AccessModes(access: string)
    ensures Readable("read-only") && !Writable("read-only")
    ensures !Readable("write-only") && Writable("write-only")
    ensures Readable("read-write") && Writable("read-write")
    ensures !Readable("writeOnce") && Writable("writeOnce")
    ensures Readable("read-writeOnce") && Writable("read-writeOnce")
    ensures Readable(access) || Writable(access) <==>
      access in ["read-only", "write-only", "read-write", "writeOnce", "read-writeOnce"]
  {
  }

  /** `list(map(int, parts))`: the first part `int` rejects is the error. */
  function IntsOf(parts: seq<string>): (r: Result<seq<int>, Error>)
    ensures r.Ok? ==> |r.value| == |parts|
    ensures r.Ok? ==> forall i :: 0 <= i < |parts| ==> IntOf(parts[i]) == Ok(r.value[i])
    ensures r.Err? ==> r.error.ValueError?
  {
    if parts == [] then Ok([])
    else
      var x :- IntOf(parts[0]);
      var rest :- IntsOf(parts[1..]);
      Ok([x] + rest)
  }

  lemma IntsOfSingle(b: string, n: int)
    requires IntOf(b) == Ok(n)
    ensures IntsOf([b]) == Ok([n])
  {
    assert [b][1..] == [];
    assert IntsOf([]) == Ok([]);
    assert [n] + [] == [n];
  }

  /** A `bitRange` text `[msb:lsb]`: the surrounding whitespace is
      stripped, the first and last characters are dropped, the rest is
      split at `:`, every part must be an integer and the first two are msb
      and lsb. */
  function RangeSpan(text: string): (r: Result<BitSpan, Error>)
    ensures r.Err? ==> r.error.ValueError? || r.error.IndexError?
  {
    var stripped := Strip(text);
    var inner := if |stripped| >= 2 then stripped[1..|stripped| - 1] else [];
    var nums :- IntsOf(Split(inner, ':'));
    if |nums| < 2 then Err(IndexError)
    else Ok(BitSpan(nums[1], 1 + nums[0] - nums[1]))
  }

  predicate HasBitRangeEncoding(node: FieldNode) {
    || (node.bitOffset.Some? && node.bitWidth.Some?)
    || node.bitRange.Some?
    || (node.lsb.Some? && node.msb.Some?)
  }

  /** The bit span of a field: `bitOffset`+`bitWidth` first, then
      `bitRange`, then `lsb`+`msb`; the assertion fails when none is there. */
  function SpanOf(node: FieldNode, fieldName: string): (r: Result<BitSpan, Error>)
    ensures r == Err(AssertionError(fieldName)) <==> !HasBitRangeEncoding(node)
  {
    if node.bitOffset.Some? && node.bitWidth.Some? then
      var offset :- IntOf(node.bitOffset.value);
      var width :- IntOf(node.bitWidth.value);
      Ok(BitSpan(offset, width))
    else if node.bitRange.Some? then
      RangeSpan(node.bitRange.value)
    else if node.lsb.Some? && node.msb.Some? then
      var lsb :- IntOf(node.lsb.value);
      var msb :- IntOf(node.msb.value);
      Ok(BitSpan(lsb, 1 + msb - lsb))
    else
      Err(AssertionError(fieldName))
  }

  /** The encodings are tried in priority order: a higher one present makes
      the lower ones irrelevant. */
  lemma SpanPriority(node: FieldNode, fieldName: string)
    ensures node.bitOffset.Some? && node.bitWidth.Some? ==>
      SpanOf(node, fieldName) == SpanOf(node.(bitRange := None, lsb := None, msb := None), fieldName)
    ensures node.bitRange.Some? ==>
      SpanOf(node, fieldName) == SpanOf(node.(bitOffset := None, lsb := None, msb := None), fieldName)
        || (node.bitOffset.Some? && node.bitWidth.Some?)
  {
  }

  /** A field node with no child at all. */
  function BareField(): FieldNode {
    FieldNode(None, None, None, None, None, None, None, None, None)
  }

  /** `bitOffset=lo, bitWidth=hi-lo+1` gives offset lo and width hi-lo+1. */
  lemma SpanFromOffsetWidth(lo: nat, hi: nat, fieldName: string)
    requires lo <= hi
    ensures SpanOf(BareField().(bitOffset := Some(NatToString(lo)), bitWidth := Some(NatToString(hi - lo + 1))), fieldName)
      == Ok(BitSpan(lo, hi - lo + 1))
  {
    DecimalRoundTrip(lo);
    DecimalRoundTrip(hi - lo + 1);
  }

  /** `bitRange="[hi:lo]"`, with any whitespace around it, gives offset lo
      and width hi-lo+1. */
  lemma SpanFromRange(lo: nat, hi: nat, fieldName: string, before: string, after: string)
    requires lo <= hi
    requires AllSpace(before) && AllSpace(after)
    ensures SpanOf(BareField().(bitRange := Some(before + "[" + NatToString(hi) + ":" + NatToString(lo) + "]" + after)), fieldName)
      == Ok(BitSpan(lo, hi - lo + 1))
  {
    DecimalRoundTrip(lo);
    DecimalRoundTrip(hi);
    RangeOfDigits(NatToString(hi), NatToString(lo), hi, lo, before, after);
  }

  /** `[a:b]` with decimal texts a and b, and any whitespace around it,
      spans from b to a. */
  lemma RangeOfDigits(a: string, b: string, hi: nat, lo: nat, before: string, after: string)
    requires AllDigits(a) && AllDigits(b)
    requires IntOf(a) == Ok(hi) && IntOf(b) == Ok(lo)
    requires AllSpace(before) && AllSpace(after)
    ensures RangeSpan(before + "[" + a + ":" + b + "]" + after) == Ok(BitSpan(lo, 1 + hi - lo))
  {
    var padded := before + "[" + a + ":" + b + "]" + after;
    var text := "[" + a + ":" + b + "]";
    assert padded == before + text + after;
    Bracketed(a, b);
    StripPadded(before, text, after);
    RangeOfInner(a, b, hi, lo);
    RangeSpanIs(padded, hi, lo);
  }

  /** The span of a range whose stripped inner text reads as `[hi, lo]`. */
  lemma RangeSpanIs(text: string, hi: int, lo: int)
    requires |Strip(text)| >= 2
    requires IntsOf(Split(Strip(text)[1..|Strip(text)| - 1], ':')) == Ok([hi, lo])
    ensures RangeSpan(text) == Ok(BitSpan(lo, 1 + hi - lo))
  {
  }

  /** `[a:b]` starts and ends with a bracket, and between them is `a:b`. */
  lemma Bracketed(a: string, b: string)
    ensures var text := "[" + a + ":" + b + "]";
      && |text| >= 2 && text[0] == '[' && text[|text| - 1] == ']'
      && text[1..|text| - 1] == Join([a, b], ':')
  {
  }

  /** The inner text `a:b` splits into the two decimal numbers. */
  lemma RangeOfInner(a: string, b: string, hi: nat, lo: nat)
    requires AllDigits(a) && AllDigits(b)
    requires IntOf(a) == Ok(hi) && IntOf(b) == Ok(lo)
    ensures IntsOf(Split(Join([a, b], ':'), ':')) == Ok([hi, lo])
  {
    assert ':' !in a && ':' !in b by {
      assert forall i :: 0 <= i < |a| ==> IsDigit(a[i]);
      assert forall i :: 0 <= i < |b| ==> IsDigit(b[i]);
    }
    SplitJoin([a, b], ':');
    assert [a, b][1..] == [b];
    IntsOfSingle(b, lo);
    assert [hi as int] + [lo as int] == [hi, lo];
  }

  /** `lsb=lo, msb=hi` gives offset lo and width hi-lo+1. */
  lemma SpanFromLsbMsb(lo: nat, hi: nat, fieldName: string)
    requires lo <= hi
    ensures SpanOf(BareField().(lsb := Some(NatToString(lo)), msb := Some(NatToString(hi))), fieldName)
      == Ok(BitSpan(lo, hi - lo + 1))
  {
    DecimalRoundTrip(lo);
    DecimalRoundTrip(hi);
  }

  /** `bitRange=" [6:4]\n"`, padded with whitespace, gives offset 4 and
      width 3 too. */
  lemma PaddedRangeExample()
    ensures SpanOf(BareField().(bitRange := Some(" [6:4]\n")), "F") == Ok(BitSpan(4, 3))
  {
    RangeExample(" ", "\n");
    assert " " + "[6:4]" + "\n" == " [6:4]\n";
  }

  /** `int("6")` is 6 and `int("4")` is 4. */
  lemma DigitExample()
    ensures IntOf("6") == Ok(6) && IntOf("4") == Ok(4)
    ensures AllDigits("6") && AllDigits("4")
  {
    DecimalRoundTrip(6);
    DecimalRoundTrip(4);
    assert NatToString(4) == "4" && NatToString(6) == "6";
  }

  /** `bitOffset=4,bitWidth=3`, `bitRange="[6:4]"` and `lsb=4,msb=6` all give
      offset 4 and width 3. */
  lemma SpanExample()
    ensures SpanOf(BareField().(bitOffset := Some("4"), bitWidth := Some("3")), "F") == Ok(BitSpan(4, 3))
    ensures SpanOf(BareField().(bitRange := Some("[6:4]")), "F") == Ok(BitSpan(4, 3))
    ensures SpanOf(BareField().(lsb := Some("4"), msb := Some("6")), "F") == Ok(BitSpan(4, 3))
  {
    OffsetWidthExample();
    RangeExample("", "");
    assert "" + "[6:4]" + "" == "[6:4]";
    LsbMsbExample();
  }

  lemma OffsetWidthExample()
    ensures SpanOf(BareField().(bitOffset := Some("4"), bitWidth := Some("3")), "F") == Ok(BitSpan(4, 3))
  {
    SpanFromOffsetWidth(4, 6, "F");
    assert NatToString(4) == "4" && NatToString(3) == "3";
  }

  /** `[6:4]` with any whitespace around it. */
  lemma RangeExample(before: string, after: string)
    requires AllSpace(before) && AllSpace(after)
    ensures SpanOf(BareField().(bitRange := Some(before + "[6:4]" + after)), "F") == Ok(BitSpan(4, 3))
  {
    DigitExample();
    assert before + "[6:4]" + after == before + "[" + "6" + ":" + "4" + "]" + after;
    RangeOfDigits("6", "4", 6, 4, before, after);
  }

  lemma LsbMsbExample()
    ensures SpanOf(BareField().(lsb := Some("4"), msb := Some("6")), "F") == Ok(BitSpan(4, 3))
  {
    SpanFromLsbMsb(4, 6, "F");
    assert NatToString(4) == "4" && NatToString(6) == "6";
  }

  /** The table key an `<enumeratedValues>` child contributes: only
      `<enumeratedValue>` elements with a `value`, after `#` becomes `0x`,
      when `int(value, 0)` accepts it. */
  function EnumKey(c: EnumChild): Option<nat> {
    match c
    case OtherEnumChild(_) => None
    case EnumValueElem(v) =>
      if v.value.None? then None else ParseAutoBase(ReplaceHash(v.value.value))
  }

  /** The entry a contributing child stores: its name and its description
      (empty when absent). */
  function EnumEntryOf(v: EnumValueNode): Result<EnumEntry, Error> {
    var name :- Required(v.name, "name");
    Ok(EnumEntry(name, v.description.GetOr("")))
  }

  /** The table after the children `cs`, starting from `table`; a later
      entry with the same key overwrites an earlier one. */
  function EnumTableFrom(table: map<int, EnumEntry>, cs: seq<EnumChild>): Result<map<int, EnumEntry>, Error>
    decreases |cs|
  {
    if cs == [] then Ok(table)
    else match EnumKey(cs[0])
      case None => EnumTableFrom(table, cs[1..])
      case Some(k) =>
        var entry :- EnumEntryOf(cs[0].enumValue);
        EnumTableFrom(table[k := entry], cs[1..])
  }

  /** The table fills exactly the keys of contributing children (beside
      those already there), and it is built unless a contributing child has
      no `name`. */
  lemma {:induction false} EnumTableKeys(table: map<int, EnumEntry>, cs: seq<EnumChild>)
    ensures EnumTableFrom(table, cs).Ok? <==>
      forall i :: 0 <= i < |cs| && EnumKey(cs[i]).Some? ==> cs[i].enumValue.name.Some?
    ensures EnumTableFrom(table, cs).Ok? ==> forall k :: k in EnumTableFrom(table, cs).value <==>
      k in table || exists i :: 0 <= i < |cs| && EnumKey(cs[i]) == Some(k)
    decreases |cs|
  {
    if cs != [] {
      var rest := cs[1..];
      assert forall i :: 1 <= i < |cs| ==> cs[i] == rest[i - 1];
      match EnumKey(cs[0])
      case None =>
        EnumTableKeys(table, rest);
        if EnumTableFrom(table, cs).Ok? {
          forall k | exists i :: 0 <= i < |cs| && EnumKey(cs[i]) == Some(k)
            ensures exists i :: 0 <= i < |rest| && EnumKey(rest[i]) == Some(k)
          {
            var i :| 0 <= i < |cs| && EnumKey(cs[i]) == Some(k);
            assert EnumKey(rest[i - 1]) == Some(k);
          }
        }
      case Some(k0) =>
        if cs[0].enumValue.name.Some? {
          var entry := EnumEntryOf(cs[0].enumValue).value;
          EnumTableKeys(table[k0 := entry], rest);
          if EnumTableFrom(table, cs).Ok? {
            forall k | exists i :: 0 <= i < |cs| && EnumKey(cs[i]) == Some(k)
              ensures k == k0 || exists i :: 0 <= i < |rest| && EnumKey(rest[i]) == Some(k)
            {
              var i :| 0 <= i < |cs| && EnumKey(cs[i]) == Some(k);
              if i > 0 {
                assert EnumKey(rest[i - 1]) == Some(k);
              }
            }
          }
        }
    }
  }

  /** Later duplicates overwrite earlier ones: a key holds the entry of the
      last child that contributes it. */
  lemma {:induction false} EnumTableLastWins(table: map<int, EnumEntry>, cs: seq<EnumChild>, i: nat, k: int)
    requires EnumTableFrom(table, cs).Ok?
    requires i < |cs| && EnumKey(cs[i]) == Some(k)
    requires forall j :: i < j < |cs| ==> EnumKey(cs[j]) != Some(k)
    ensures cs[i].enumValue.name.Some?
    ensures k in EnumTableFrom(table, cs).value
    ensures EnumTableFrom(table, cs).value[k] == EnumEntry(cs[i].enumValue.name.value, cs[i].enumValue.description.GetOr(""))
    decreases |cs|
  {
    var rest := cs[1..];
    assert forall j :: 1 <= j < |cs| ==> cs[j] == rest[j - 1];
    if i == 0 {
      var entry := EnumEntryOf(cs[0].enumValue).value;
      EnumTableKeep(table[k := entry], rest, k);
    } else {
      match EnumKey(cs[0])
      case None =>
        EnumTableLastWins(table, rest, i - 1, k);
      case Some(k0) =>
        var entry := EnumEntryOf(cs[0].enumValue).value;
        EnumTableLastWins(table[k0 := entry], rest, i - 1, k);
    }
  }

  /** A key no child contributes keeps its entry. */
  lemma {:induction false} EnumTableKeep(table: map<int, EnumEntry>, cs: seq<EnumChild>, k: int)
    requires EnumTableFrom(table, cs).Ok?
    requires k in table
    requires forall j :: 0 <= j < |cs| ==> EnumKey(cs[j]) != Some(k)
    ensures k in EnumTableFrom(table, cs).value && EnumTableFrom(table, cs).value[k] == table[k]
    decreases |cs|
  {
    if cs != [] {
      var rest := cs[1..];
      assert forall j :: 1 <= j < |cs| ==> cs[j] == rest[j - 1];
      match EnumKey(cs[0])
      case None =>
        EnumTableKeep(table, rest, k);
      case Some(k0) =>
        var entry := EnumEntryOf(cs[0].enumValue).value;
        EnumTableKeep(table[k0 := entry], rest, k);
    }
  }

  /** An enumerated value written `#` and hexadecimal digits has the
      number those digits spell as its key. */
  lemma EnumKeyHash(n: nat, v: EnumValueNode)
    requires v.value == Some("#" + DigitsOf(n, 16))
    ensures EnumKey(EnumValueElem(v)) == Some(n)
  {
    HashRoundTrip(n);
  }

  /** An enumerated value written with a `0x`, `0o` or `0b` prefix has
      the number its digits spell as its key. */
  lemma EnumKeyPrefixed(n: nat, letter: char, base: nat, v: EnumValueNode)
    requires (letter in "xX" && base == 16) || (letter in "oO" && base == 8) || (letter in "bB" && base == 2)
    requires v.value == Some(['0', letter] + DigitsOf(n, base))
    ensures EnumKey(EnumValueElem(v)) == Some(n)
  {
    var t := ['0', letter] + DigitsOf(n, base);
    assert '#' !in t by {
      forall i | 0 <= i < |t| ensures t[i] != '#' {
        if i >= 2 { assert t[i] == DigitsOf(n, base)[i - 2]; assert DigitValue(t[i]).Some?; }
      }
    }
    PrefixedRoundTrip(n, letter, base);
  }

  /** An enumerated value written in decimal has the number it spells as
      its key. */
  lemma EnumKeyDecimal(n: nat, v: EnumValueNode)
    requires v.value == Some(NatToString(n))
    ensures EnumKey(EnumValueElem(v)) == Some(n)
  {
    DecimalRoundTrip(n);
    assert '#' !in NatToString(n) by {
      var t := NatToString(n);
      assert forall i :: 0 <= i < |t| ==> IsDigit(t[i]);
    }
  }

  /** `#` is read as the hexadecimal prefix: `#101` is 257, not binary 5. */
  lemma HashIsHexadecimal()
    ensures EnumKey(EnumValueElem(EnumValueNode(Some("A"), None, Some("#101")))) == Some(257)
  {
    HashReplaced("#101");
    HexPrefix("0x101");
  }

  lemma HexPrefix(s: string)
    requires s == "0x101"
    ensures ParseAutoBase(s) == Some(257)
  {
    assert s[1] in "xX";
    assert ParseAutoBase(s) == DigitsValue(s[2..], 16);
    OneZeroOne(s[2..]);
  }

  /** A binary literal needs the `0b` prefix: `0b101` is 5. */
  lemma BinaryNeedsPrefix()
    ensures EnumKey(EnumValueElem(EnumValueNode(Some("A"), None, Some("0b101")))) == Some(5)
  {
    BinaryPrefix("0b101");
  }

  lemma BinaryPrefix(s: string)
    requires s == "0b101"
    ensures ReplaceHash(s) == s && ParseAutoBase(s) == Some(5)
  {
    assert '#' !in s;
    assert s[1] !in "xX" && s[1] !in "oO" && s[1] in "bB";
    assert ParseAutoBase(s) == DigitsValue(s[2..], 2);
    OneZeroOne(s[2..]);
  }

  lemma HashReplaced(s: string)
    requires s == "#101"
    ensures ReplaceHash(s) == "0x101"
  {
    assert s[1..] == "101";
    assert ReplaceHash("101") == "101";
  }

  lemma OneZeroOne(s: string)
    requires s == "101"
    ensures DigitsValue(s, 16) == Some(257) && DigitsValue(s, 2) == Some(5)
  {
    var one, ten := s[..2][..1], s[..2];
    assert ten == "10" && one == "1" && one[..0] == [] && ten[..1] == one && s[..2] == ten;
    assert DigitValue('1') == Some(1) && DigitValue('0') == Some(0);
    assert DigitsValue(one, 16) == Some(1) && DigitsValue(one, 2) == Some(1);
    assert DigitsValue(ten, 16) == Some(16) && DigitsValue(ten, 2) == Some(2);
  }

  /** The `<enumeratedValues>` loop of the field constructor. */
  method BuildEnumTable(cs: seq<EnumChild>) returns (r: Result<map<int, EnumEntry>, Error>)
    ensures r == EnumTableFrom(map[], cs)
  {
    var table: map<int, EnumEntry> := map[];
    var i := 0;
    while i < |cs|
      invariant 0 <= i <= |cs|
      invariant EnumTableFrom(table, cs[i..]) == EnumTableFrom(map[], cs)
    {
      assert cs[i..][1..] == cs[i + 1..];
      var c := cs[i];
      if c.EnumValueElem? && c.enumValue.value.Some? {
        var value := ReplaceHash(c.enumValue.value.value);
        var description := c.enumValue.description.GetOr("");
        var index := ParseAutoBase(value);
        if index.Some? {
          if c.enumValue.name.None? {
            return Err(AttributeError("name"));
          }
          table := table[index.value := EnumEntry(c.enumValue.name.value, description)];
        }
      }
      i := i + 1;
    }
    assert cs[i..] == [];
    return Ok(table);
  }

  /** The field a `<field>` node describes inside a register whose access
      is `registerAccess`. */
  function FieldOf(node: FieldNode, registerAccess: string): Result<Field, Error> {
    var name :- Required(node.name, "name");
    var span :- SpanOf(node, name);
    var table :- match node.enumeratedValues
      case None => Ok(map[])
      case Some(cs) => EnumTableFrom(map[], cs);
    Ok(Field(name, node.description.GetOr(""), span.offset, span.width, node.access.GetOr(registerAccess), table))
  }

  /** A field's access defaults to its register's; its span and table are
      the ones the node describes. */
  lemma FieldAccessDefault(node: FieldNode, registerAccess: string)
    requires FieldOf(node, registerAccess).Ok?
    ensures var f := FieldOf(node, registerAccess).value;
      && (node.access.None? ==> f.access == registerAccess)
      && (node.access.Some? ==> f.access == node.access.value)
      && SpanOf(node, f.name) == Ok(BitSpan(f.offset, f.width))
      && (node.enumeratedValues.None? ==> f.enumValues == map[])
  {
  }

  /** `SVDPeripheralRegisterField.__init__`. */
  method NewField(node: FieldNode, registerAccess: string) returns (r: Result<Field, Error>)
    ensures r == FieldOf(node, registerAccess)
  {
    if node.name.None? {
      return Err(AttributeError("name"));
    }
    var name := node.name.value;
    var description := node.description.GetOr("");
    var span := SpanOf(node, name);
    if span.Err? {
      return Err(span.error);
    }
    var access := node.access.GetOr(registerAccess);
    var table: map<int, EnumEntry> := map[];
    if node.enumeratedValues.Some? {
      var t := BuildEnumTable(node.enumeratedValues.value);
      if t.Err? {
        return Err(t.error);
      }
      table := t.value;
    }
    return Ok(Field(name, description, span.value.offset, span.value.width, access, table));
  }
}
