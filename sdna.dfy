/**
 * The embedded type catalog ("SDNA") of a `.blend` file: declared field
 * names, primitive types with their sizes, and structures whose fields get
 * byte offsets from a running, unpadded cursor. Pure functions describe
 * what each section of the catalog block holds and what the catalog
 * becomes once a section has been read.
 */
module Sdna {
  import opened Cursor

  /**
   * What the declaration parser derives from a declared name such as
   * `*next`, `co[3]` or `(*func)()`. Its rules are not part of this model:
   * the derived fields are inputs here.
   */
  datatype Declaration = Declaration(isPointer: bool, isArray: bool, arraySizes: seq<int>, cleanName: Bytes)

  /** An array declaration has at least one dimension (the first is read for pointer arrays). */
  predicate WellFormed(d: Declaration)
  {
    d.isArray ==> |d.arraySizes| > 0
  }

  datatype Name = Name(raw: Bytes, decl: Declaration)

  /** A primitive or composite type: its name, its ordinal in its catalog section and its size in bytes. */
  datatype DnaType = DnaType(name: Bytes, id: nat, size: nat)

  /** A field as stored in the structure section: a type index and a name index. */
  datatype RawField = RawField(typeIndex: nat, nameIndex: nat)

  /** A structure as stored: the index of its own type and its fields. */
  datatype RawStruct = RawStruct(typeIndex: nat, fields: seq<RawField>)

  /** A field with its computed byte offset. */
  datatype Field = Field(typeIndex: nat, nameIndex: nat, offset: nat)

  datatype Structure = Structure(typeIndex: nat, fields: seq<Field>)

  datatype Catalog = Catalog(names: seq<Name>, types: seq<DnaType>, structures: seq<Structure>)

  /** What the four sections of one catalog block hold, before any index is resolved. */
  datatype RawCatalog = RawCatalog(names: seq<Bytes>, typeNames: seq<Bytes>, typeSizes: seq<nat>, structs: seq<RawStruct>)

  // ---------------------------------------------------------------- sections

  /** NAME: two discarded 4-byte tags, a 4-byte count, that many NUL-terminated names, then alignment. */
  function NamesSectionAt(data: Bytes, p: nat, trim: Bytes -> Bytes): (r: Parsed<seq<Bytes>>)
    ensures r.Parsed? ==> p + 12 + |r.value| <= r.next && r.next % 4 == 0
  {
    match StringAt(data, p, 4, trim)
    case Truncated => Truncated
    case Parsed(_, p1) =>
      match StringAt(data, p1, 4, trim)
      case Truncated => Truncated
      case Parsed(_, p2) =>
        match UIntAt(data, p2, 4)
        case Truncated => Truncated
        case Parsed(count, p3) =>
          match CStringsAt(data, p3, count, trim)
          case Truncated => Truncated
          case Parsed(names, p4) => Parsed(names, AlignUp(p4))
  }

  /** TYPE: one discarded tag, a 4-byte count, that many NUL-terminated type names, then alignment. */
  function TypesSectionAt(data: Bytes, p: nat, trim: Bytes -> Bytes): (r: Parsed<seq<Bytes>>)
    ensures r.Parsed? ==> p + 8 + |r.value| <= r.next && r.next % 4 == 0
  {
    match StringAt(data, p, 4, trim)
    case Truncated => Truncated
    case Parsed(_, p1) =>
      match UIntAt(data, p1, 4)
      case Truncated => Truncated
      case Parsed(count, p2) =>
        match CStringsAt(data, p2, count, trim)
        case Truncated => Truncated
        case Parsed(types, p3) => Parsed(types, AlignUp(p3))
  }

  /** TLEN: one discarded tag, then one 2-byte size per type (`count` of them), then alignment. */
  function LengthsSectionAt(data: Bytes, p: nat, count: nat, trim: Bytes -> Bytes): (r: Parsed<seq<nat>>)
    ensures r.Parsed? ==> |r.value| == count && r.next == AlignUp(p + 4 + 2 * count)
  {
    match StringAt(data, p, 4, trim)
    case Truncated => Truncated
    case Parsed(_, p1) =>
      match UIntsAt(data, p1, count, 2)
      case Truncated => Truncated
      case Parsed(sizes, p2) => Parsed(sizes, AlignUp(p2))
  }

  /** `count` fields, each a 2-byte type index followed by a 2-byte name index. */
  function RawFieldsAt(data: Bytes, p: nat, count: nat): (r: Parsed<seq<RawField>>)
    ensures r.Parsed? ==> |r.value| == count && r.next == p + 4 * count
    decreases count
  {
    if count == 0 then Parsed([], p)
    else
      match UIntAt(data, p, 2)
      case Truncated => Truncated
      case Parsed(t, p1) =>
        match UIntAt(data, p1, 2)
        case Truncated => Truncated
        case Parsed(n, p2) => Cons(RawField(t, n), RawFieldsAt(data, p2, count - 1))
  }

  /** One structure: a 2-byte type index, a 2-byte field count, then the fields. */
  function RawStructAt(data: Bytes, p: nat): (r: Parsed<RawStruct>)
    ensures r.Parsed? ==> r.next == p + 4 + 4 * |r.value.fields| && r.value.typeIndex < 0x1_0000
  {
    match UIntAt(data, p, 2)
    case Truncated => Truncated
    case Parsed(index, p1) =>
      match UIntAt(data, p1, 2)
      case Truncated => Truncated
      case Parsed(numFields, p2) =>
        match RawFieldsAt(data, p2, numFields)
        case Truncated => Truncated
        case Parsed(fields, p3) => Parsed(RawStruct(index, fields), p3)
  }

  /** `count` structure records read one after another from `p`. */
  function RawStructsAt(data: Bytes, p: nat, count: nat): (r: Parsed<seq<RawStruct>>)
    ensures r.Parsed? ==> |r.value| == count && p + 4 * count <= r.next
    decreases count
  {
    if count == 0 then Parsed([], p)
    else
      match RawStructAt(data, p)
      case Truncated => Truncated
      case Parsed(s, q) => Cons(s, RawStructsAt(data, q, count - 1))
  }

  /** One step of `RawFieldsAt`: the first field's two indices, then the rest. */
  lemma RawFieldsStep(data: Bytes, p: nat, n: nat)
    requires n > 0 && RawFieldsAt(data, p, n).Parsed?
    ensures UIntAt(data, p, 2).Parsed? && UIntAt(data, p + 2, 2).Parsed?
    ensures RawFieldsAt(data, p, n)
      == Cons(RawField(UIntAt(data, p, 2).value, UIntAt(data, p + 2, 2).value), RawFieldsAt(data, p + 4, n - 1))
  {
  }

  /** The parts of one structure: its type index, its field count, then that many fields. */
  lemma RawStructParts(data: Bytes, p: nat)
    requires RawStructAt(data, p).Parsed?
    ensures UIntAt(data, p, 2).Parsed? && UIntAt(data, p + 2, 2).Parsed?
    ensures var n := UIntAt(data, p + 2, 2).value;
      && RawFieldsAt(data, p + 4, n).Parsed?
      && RawStructAt(data, p) == Parsed(RawStruct(UIntAt(data, p, 2).value, RawFieldsAt(data, p + 4, n).value), RawFieldsAt(data, p + 4, n).next)
  {
  }

  /** One step of `RawStructsAt`: the first structure, then the rest. */
  lemma RawStructsStep(data: Bytes, p: nat, n: nat)
    requires n > 0 && RawStructsAt(data, p, n).Parsed?
    ensures RawStructAt(data, p).Parsed?
    ensures RawStructsAt(data, p, n) == Cons(RawStructAt(data, p).value, RawStructsAt(data, RawStructAt(data, p).next, n - 1))
  {
  }

  /** STRC: one discarded tag, a 4-byte count, that many structures, then alignment. */
  function StructuresSectionAt(data: Bytes, p: nat, trim: Bytes -> Bytes): (r: Parsed<seq<RawStruct>>)
    ensures r.Parsed? ==> p + 8 + 4 * |r.value| <= r.next && r.next % 4 == 0
  {
    match StringAt(data, p, 4, trim)
    case Truncated => Truncated
    case Parsed(_, p1) =>
      match UIntAt(data, p1, 4)
      case Truncated => Truncated
      case Parsed(count, p2) =>
        match RawStructsAt(data, p2, count)
        case Truncated => Truncated
        case Parsed(structs, p3) => Parsed(structs, AlignUp(p3))
  }

  /** The four sections in order, starting right after the catalog block's header. */
  function CatalogAt(data: Bytes, p: nat, trim: Bytes -> Bytes): (r: Parsed<RawCatalog>)
    ensures r.Parsed? ==> |r.value.typeSizes| == |r.value.typeNames| && p + 32 <= r.next && r.next % 4 == 0
  {
    match NamesSectionAt(data, p, trim)
    case Truncated => Truncated
    case Parsed(names, p1) =>
      match TypesSectionAt(data, p1, trim)
      case Truncated => Truncated
      case Parsed(typeNames, p2) =>
        match LengthsSectionAt(data, p2, |typeNames|, trim)
        case Truncated => Truncated
        case Parsed(sizes, p3) =>
          match StructuresSectionAt(data, p3, trim)
          case Truncated => Truncated
          case Parsed(structs, p4) => Parsed(RawCatalog(names, typeNames, sizes, structs), p4)
  }

  // ---------------------------------------------------------------- names and types

  /** The names a section adds, each with what the declaration parser derives from it. */
  function NamesOf(raws: seq<Bytes>, declare: Bytes -> Declaration): (r: seq<Name>)
    ensures |r| == |raws|
  {
    if raws == [] then []
    else NamesOf(raws[..|raws| - 1], declare) + [Name(raws[|raws| - 1], declare(raws[|raws| - 1]))]
  }

  /** The types a section adds: the i-th gets id i and size 0 until its size is read. */
  function TypesOf(raws: seq<Bytes>): (r: seq<DnaType>)
    ensures |r| == |raws|
  {
    if raws == [] then []
    else TypesOf(raws[..|raws| - 1]) + [DnaType(raws[|raws| - 1], |raws| - 1, 0)]
  }

  /** A stored size of 0 stands for a pointer-sized type. */
  function EffectiveSize(stored: nat, pointerSize: nat): nat
  {
    if stored == 0 then pointerSize else stored
  }

  /**
   * The type table after the TLEN loop: the i-th stored size, with 0 read as the
   * pointer size, goes to the i-th type of the table; the types after the last
   * size are left as they were.
   */
  function PatchSizes(types: seq<DnaType>, sizes: seq<nat>, pointerSize: nat): (r: seq<DnaType>)
    requires |sizes| <= |types|
    ensures |r| == |types|
  {
    if sizes == [] then types
    else
      var k := |sizes| - 1;
      var before := PatchSizes(types, sizes[..k], pointerSize);
      before[k := before[k].(size := EffectiveSize(sizes[k], pointerSize))]
  }

  /** The `i`-th name added is the `i`-th string with its declaration. */
  lemma {:induction false} NameAt(raws: seq<Bytes>, declare: Bytes -> Declaration, i: nat)
    requires i < |raws|
    ensures NamesOf(raws, declare)[i] == Name(raws[i], declare(raws[i]))
  {
    var n := |raws| - 1;
    if i < n {
      NameAt(raws[..n], declare, i);
    }
  }

  /** The `i`-th type added is the `i`-th string, with id `i` and size 0. */
  lemma {:induction false} TypeAt(raws: seq<Bytes>, i: nat)
    requires i < |raws|
    ensures TypesOf(raws)[i] == DnaType(raws[i], i, 0)
  {
    var n := |raws| - 1;
    if i < n {
      TypeAt(raws[..n], i);
    }
  }

  /** Type `i` gets the `i`-th size, read through `EffectiveSize`, when there is one, and is left alone otherwise. */
  lemma {:induction false} PatchAt(types: seq<DnaType>, sizes: seq<nat>, pointerSize: nat, i: nat)
    requires |sizes| <= |types| && i < |types|
    ensures PatchSizes(types, sizes, pointerSize)[i]
      == if i < |sizes| then types[i].(size := EffectiveSize(sizes[i], pointerSize)) else types[i]
  {
    if sizes != [] {
      var k := |sizes| - 1;
      PatchAt(types, sizes[..k], pointerSize, i);
    }
  }

  /** After the TLEN loop with a pointer size of 4 or 8, no patched type has size 0. */
  lemma PatchedSizesNonZero(types: seq<DnaType>, sizes: seq<nat>, pointerSize: nat)
    requires |sizes| <= |types| && (pointerSize == 4 || pointerSize == 8)
    ensures forall i :: 0 <= i < |sizes| ==> PatchSizes(types, sizes, pointerSize)[i].size != 0
    ensures forall i :: 0 <= i < |sizes| ==> PatchSizes(types, sizes, pointerSize)[i].size == (if sizes[i] == 0 then pointerSize else sizes[i])
  {
    forall i | 0 <= i < |sizes|
      ensures PatchSizes(types, sizes, pointerSize)[i].size == (if sizes[i] == 0 then pointerSize else sizes[i])
    {
      PatchAt(types, sizes, pointerSize, i);
    }
  }

  /** Reading one more name appends its entry. */
  lemma NamesSnoc(before: seq<Name>, raws: seq<Bytes>, x: Bytes, declare: Bytes -> Declaration)
    ensures before + NamesOf(raws + [x], declare) == before + NamesOf(raws, declare) + [Name(x, declare(x))]
  {
    assert (raws + [x])[..|raws|] == raws;
    assert before + (NamesOf(raws, declare) + [Name(x, declare(x))]) == before + NamesOf(raws, declare) + [Name(x, declare(x))];
  }

  /** Reading one more type name appends a type numbered by its position. */
  lemma TypesSnoc(before: seq<DnaType>, raws: seq<Bytes>, x: Bytes)
    ensures before + TypesOf(raws + [x]) == before + TypesOf(raws) + [DnaType(x, |raws|, 0)]
  {
    assert (raws + [x])[..|raws|] == raws;
    assert before + (TypesOf(raws) + [DnaType(x, |raws|, 0)]) == before + TypesOf(raws) + [DnaType(x, |raws|, 0)];
  }

  /** Reading one more size patches one more type. */
  lemma PatchSnoc(types: seq<DnaType>, sizes: seq<nat>, x: nat, pointerSize: nat)
    requires |sizes| < |types|
    ensures PatchSizes(types, sizes + [x], pointerSize)
      == PatchSizes(types, sizes, pointerSize)[|sizes| := types[|sizes|].(size := EffectiveSize(x, pointerSize))]
  {
    assert (sizes + [x])[..|sizes|] == sizes;
    PatchAt(types, sizes, pointerSize, |sizes|);
  }

  /** `NamesSnoc` for the prefixes of one section. */
  lemma NamesPrefix(before: seq<Name>, all: seq<Bytes>, i: nat, declare: Bytes -> Declaration)
    requires i < |all|
    ensures before + NamesOf(all[..i + 1], declare) == before + NamesOf(all[..i], declare) + [Name(all[i], declare(all[i]))]
  {
    assert all[..i + 1] == all[..i] + [all[i]];
    NamesSnoc(before, all[..i], all[i], declare);
  }

  /** `TypesSnoc` for the prefixes of one section. */
  lemma TypesPrefix(before: seq<DnaType>, all: seq<Bytes>, i: nat)
    requires i < |all|
    ensures before + TypesOf(all[..i + 1]) == before + TypesOf(all[..i]) + [DnaType(all[i], i, 0)]
  {
    assert all[..i + 1] == all[..i] + [all[i]];
    TypesSnoc(before, all[..i], all[i]);
  }

  /** `PatchSnoc` for the prefixes of one section. */
  lemma PatchPrefix(types: seq<DnaType>, all: seq<nat>, i: nat, pointerSize: nat)
    requires i < |all| <= |types|
    ensures PatchSizes(types, all[..i + 1], pointerSize)
      == PatchSizes(types, all[..i], pointerSize)[i := types[i].(size := EffectiveSize(all[i], pointerSize))]
  {
    assert all[..i + 1] == all[..i] + [all[i]];
    PatchSnoc(types, all[..i], all[i], pointerSize);
  }

  // ---------------------------------------------------------------- field layout

  /** One step of the `multi` loop: -1 dimensions are skipped, the first other one is added, later ones multiply. */
  function MultiStep(multi: int, s: int): int
  {
    if s == -1 then multi else if multi == 0 then multi + s else multi * s
  }

  /** The `multi` the loop over a field's array dimensions ends with, starting from 0. */
  function ArrayMulti(dims: seq<int>): int
  {
    if dims == [] then 0 else MultiStep(ArrayMulti(dims[..|dims| - 1]), dims[|dims| - 1])
  }

  /** The dimensions that are not -1, in order. */
  function Sized(dims: seq<int>): (r: seq<int>)
    ensures |r| <= |dims|
    ensures forall i :: 0 <= i < |r| ==> r[i] != -1
  {
    if dims == [] then []
    else Sized(dims[..|dims| - 1]) + (if dims[|dims| - 1] != -1 then [dims[|dims| - 1]] else [])
  }

  /** The product of the numbers, 1 for none. */
  function Product(xs: seq<int>): int
  {
    if xs == [] then 1 else Product(xs[..|xs| - 1]) * xs[|xs| - 1]
  }

  /**
   * When every dimension is positive or -1, `multi` is the product of the
   * dimensions other than -1, and 0 when there are none.
   */
  lemma {:induction false} ArrayMultiIsProduct(dims: seq<int>)
    requires forall i :: 0 <= i < |dims| ==> dims[i] > 0 || dims[i] == -1
    ensures Sized(dims) == [] ==> ArrayMulti(dims) == 0
    ensures Sized(dims) != [] ==> ArrayMulti(dims) == Product(Sized(dims)) > 0
  {
    if dims != [] {
      var init := dims[..|dims| - 1];
      var last := dims[|dims| - 1];
      assert forall i :: 0 <= i < |init| ==> init[i] == dims[i];
      ArrayMultiIsProduct(init);
      var s := Sized(init);
      assert ArrayMulti(dims) == MultiStep(ArrayMulti(init), last);
      if last != -1 {
        assert Sized(dims) == s + [last];
        assert (s + [last])[..|s|] == s;
        assert Product(s + [last]) == Product(s) * last;
        if s != [] {
          ProductPositive(Product(s), last);
        }
      } else {
        assert Sized(dims) == s;
      }
    }
  }

  /** A product of two positive numbers is positive. */
  lemma ProductPositive(x: int, y: int)
    requires x > 0 && y > 0
    ensures x * y > 0
  {
  }

  /** `curOffset` is an `unsigned int`: every update wraps around modulo 2^32. */
  function Wrap32(x: int): (r: nat)
    ensures r < 0x1_0000_0000
    ensures 0 <= x < 0x1_0000_0000 ==> r == x
  {
    x % 0x1_0000_0000
  }

  /**
   * How far one field moves `curOffset`, given the size of the field's own type:
   * a pointer moves it by the pointer size times its first array dimension (1
   * when that is 0 or the field is not an array); a non-pointer array with a
   * non-zero `multi` by the type size times `multi`; anything else by the type size.
   */
  function Advance(d: Declaration, typeSize: nat, pointerSize: nat): (r: int)
    requires WellFormed(d)
    ensures d.isPointer && (!d.isArray || d.arraySizes[0] == 0) ==> r == pointerSize
    ensures d.isPointer && d.isArray && d.arraySizes[0] != 0 ==> r == pointerSize * d.arraySizes[0]
    ensures !d.isPointer && d.isArray && ArrayMulti(d.arraySizes) != 0 ==> r == typeSize * ArrayMulti(d.arraySizes)
    ensures !d.isPointer && (!d.isArray || ArrayMulti(d.arraySizes) == 0) ==> r == typeSize
  {
    var offsetSet := d.isPointer || (d.isArray && ArrayMulti(d.arraySizes) != 0);
    var step :=
      if d.isPointer then
        var amount := if d.isArray then d.arraySizes[0] else 0;
        pointerSize * (if amount == 0 then 1 else amount)
      else if d.isArray then typeSize * ArrayMulti(d.arraySizes)
      else 0;
    if offsetSet then step else step + typeSize
  }

  /** Every name and type index of the fields names an entry of the catalog, and every name is well formed. */
  predicate FieldsIndexed(raw: seq<RawField>, c: Catalog)
  {
    forall i :: 0 <= i < |raw| ==> FieldIndexed(raw[i], c)
  }

  /** The field's type and name indices name catalog entries, and its name is well formed. */
  predicate FieldIndexed(f: RawField, c: Catalog)
  {
    f.typeIndex < |c.types| && f.nameIndex < |c.names| && WellFormed(c.names[f.nameIndex].decl)
  }

  /**
   * How far one field moves `curOffset`. A field whose indices fall outside
   * the catalog is given none; loading never meets one, since it requires
   * every index to be in range.
   */
  function FieldAdvance(f: RawField, c: Catalog, pointerSize: nat): int
  {
    if FieldIndexed(f, c) then Advance(c.names[f.nameIndex].decl, c.types[f.typeIndex].size, pointerSize) else 0
  }

  /** The advance of each field of a structure, in order. */
  function Advances(raw: seq<RawField>, c: Catalog, pointerSize: nat): (r: seq<int>)
    ensures |r| == |raw|
  {
    if raw == [] then []
    else
      var k := |raw| - 1;
      Advances(raw[..k], c, pointerSize) + [FieldAdvance(raw[k], c, pointerSize)]
  }

  /** The `k`-th advance is the `k`-th field's. */
  lemma {:induction false} AdvanceAt(raw: seq<RawField>, c: Catalog, pointerSize: nat, k: nat)
    requires k < |raw|
    ensures Advances(raw, c, pointerSize)[k] == FieldAdvance(raw[k], c, pointerSize)
  {
    var n := |raw| - 1;
    if k < n {
      AdvanceAt(raw[..n], c, pointerSize, k);
    }
  }

  /** `curOffset` after the given advances, starting from 0. */
  function CurOffset(advances: seq<int>): nat
  {
    if advances == [] then 0
    else
      var k := |advances| - 1;
      Wrap32(CurOffset(advances[..k]) + advances[k])
  }

  /** One more advance moves `curOffset` on by that advance, modulo 2^32. */
  lemma CurOffsetStep(advances: seq<int>, k: nat)
    requires k < |advances|
    ensures CurOffset(advances[..k + 1]) == Wrap32(CurOffset(advances[..k]) + advances[k])
  {
    assert advances[..k + 1][..k] == advances[..k];
  }

  /**
   * The fields of one structure with their offsets: each field gets the
   * value `curOffset` has before its own advance.
   */
  function Layout(raw: seq<RawField>, c: Catalog, pointerSize: nat): (r: seq<Field>)
    ensures |r| == |raw|
  {
    if raw == [] then []
    else
      var k := |raw| - 1;
      Layout(raw[..k], c, pointerSize) + [Field(raw[k].typeIndex, raw[k].nameIndex, CurOffset(Advances(raw[..k], c, pointerSize)))]
  }

  /**
   * Field `k` keeps its type and name indices and sits where `curOffset`
   * stands after the advances of the fields before it.
   */
  lemma {:induction false} LayoutAt(raw: seq<RawField>, c: Catalog, pointerSize: nat, k: nat)
    requires k < |raw|
    ensures Layout(raw, c, pointerSize)[k]
      == Field(raw[k].typeIndex, raw[k].nameIndex, CurOffset(Advances(raw, c, pointerSize)[..k]))
  {
    var n := |raw| - 1;
    AdvancesPrefix(raw, n, c, pointerSize);
    if k < n {
      LayoutAt(raw[..n], c, pointerSize, k);
      assert Advances(raw, c, pointerSize)[..k] == Advances(raw[..n], c, pointerSize)[..k];
    }
  }

  /** The advances of a prefix are the prefix of the advances. */
  lemma {:induction false} AdvancesPrefix(raw: seq<RawField>, n: nat, c: Catalog, pointerSize: nat)
    requires n <= |raw|
    ensures Advances(raw[..n], c, pointerSize) == Advances(raw, c, pointerSize)[..n]
    decreases |raw|
  {
    if n < |raw| {
      var m := |raw| - 1;
      AdvancesPrefix(raw[..m], n, c, pointerSize);
      assert raw[..m][..n] == raw[..n];
    } else {
      assert raw[..n] == raw;
    }
  }

  /**
   * The first field is at offset 0, and each next field sits one advance of
   * the previous field (modulo 2^32) further on.
   */
  lemma LayoutSteps(raw: seq<RawField>, c: Catalog, pointerSize: nat)
    ensures raw != [] ==> Layout(raw, c, pointerSize)[0].offset == 0
    ensures forall k :: 0 <= k < |raw| - 1 ==>
      Layout(raw, c, pointerSize)[k + 1].offset
        == Wrap32(Layout(raw, c, pointerSize)[k].offset + FieldAdvance(raw[k], c, pointerSize))
  {
    if raw != [] {
      LayoutAt(raw, c, pointerSize, 0);
      assert Advances(raw, c, pointerSize)[..0] == [];
    }
    forall k | 0 <= k < |raw| - 1
      ensures Layout(raw, c, pointerSize)[k + 1].offset
        == Wrap32(Layout(raw, c, pointerSize)[k].offset + FieldAdvance(raw[k], c, pointerSize))
    {
      LayoutStep(raw, c, pointerSize, k);
    }
  }

  /** `LayoutSteps` for one pair of neighbouring fields. */
  lemma {:induction false} LayoutStep(raw: seq<RawField>, c: Catalog, pointerSize: nat, k: nat)
    requires k + 1 < |raw|
    ensures Layout(raw, c, pointerSize)[k + 1].offset
      == Wrap32(Layout(raw, c, pointerSize)[k].offset + FieldAdvance(raw[k], c, pointerSize))
  {
    var advances := Advances(raw, c, pointerSize);
    LayoutAt(raw, c, pointerSize, k);
    LayoutAt(raw, c, pointerSize, k + 1);
    AdvanceAt(raw, c, pointerSize, k);
    CurOffsetStep(advances, k);
  }

  /** Reading one more field appends its advance. */
  lemma AdvancesSnoc(raw: seq<RawField>, f: RawField, c: Catalog, pointerSize: nat)
    ensures Advances(raw + [f], c, pointerSize) == Advances(raw, c, pointerSize) + [FieldAdvance(f, c, pointerSize)]
  {
    assert (raw + [f])[..|raw|] == raw;
  }

  /** `LayoutSnoc` for the prefixes of one field list: the layout of `all[..j + 1]` extends that of `all[..j]`. */
  lemma LayoutPrefix(all: seq<RawField>, j: nat, c: Catalog, pointerSize: nat)
    requires j < |all|
    ensures Layout(all[..j + 1], c, pointerSize)
      == Layout(all[..j], c, pointerSize) + [Field(all[j].typeIndex, all[j].nameIndex, CurOffset(Advances(all[..j], c, pointerSize)))]
    ensures CurOffset(Advances(all[..j + 1], c, pointerSize))
      == Wrap32(CurOffset(Advances(all[..j], c, pointerSize)) + FieldAdvance(all[j], c, pointerSize))
  {
    assert all[..j + 1] == all[..j] + [all[j]];
    LayoutSnoc(all[..j], all[j], c, pointerSize);
  }

  /** Reading one more field appends it at the current `curOffset`, which then moves on by its advance. */
  lemma LayoutSnoc(raw: seq<RawField>, f: RawField, c: Catalog, pointerSize: nat)
    ensures Layout(raw + [f], c, pointerSize)
      == Layout(raw, c, pointerSize) + [Field(f.typeIndex, f.nameIndex, CurOffset(Advances(raw, c, pointerSize)))]
    ensures CurOffset(Advances(raw + [f], c, pointerSize))
      == Wrap32(CurOffset(Advances(raw, c, pointerSize)) + FieldAdvance(f, c, pointerSize))
  {
    AdvancesSnoc(raw, f, c, pointerSize);
    var a := Advances(raw, c, pointerSize);
    assert (a + [FieldAdvance(f, c, pointerSize)])[..|a|] == a;
  }

  /** The names and the types of two catalogs agree; their structures may differ. */
  predicate SameTables(c: Catalog, c': Catalog)
  {
    c.names == c'.names && c.types == c'.types
  }

  /** The advances depend on the names and the types of the catalog only. */
  lemma {:induction false} AdvancesIgnoreStructures(raw: seq<RawField>, c: Catalog, c': Catalog, pointerSize: nat)
    requires SameTables(c, c')
    ensures Advances(raw, c', pointerSize) == Advances(raw, c, pointerSize)
  {
    if raw != [] {
      AdvancesIgnoreStructures(raw[..|raw| - 1], c, c', pointerSize);
    }
  }

  /** Whether the fields can be laid out, and how, depends on the names and the types of the catalog only. */
  lemma {:induction false} LayoutIgnoresStructures(raw: seq<RawField>, c: Catalog, c': Catalog, pointerSize: nat)
    requires SameTables(c, c')
    ensures FieldsIndexed(raw, c') == FieldsIndexed(raw, c)
    ensures Layout(raw, c', pointerSize) == Layout(raw, c, pointerSize)
  {
    if raw != [] {
      var k := |raw| - 1;
      LayoutIgnoresStructures(raw[..k], c, c', pointerSize);
      AdvancesIgnoreStructures(raw[..k], c, c', pointerSize);
    }
  }

  /** The plain sum of the advances. */
  function Sum(xs: seq<int>): int
  {
    if xs == [] then 0 else Sum(xs[..|xs| - 1]) + xs[|xs| - 1]
  }

  /** With no negative advance, a longer prefix never sums to less. */
  lemma {:induction false} SumGrows(xs: seq<int>, i: nat, j: nat)
    requires forall k :: 0 <= k < |xs| ==> xs[k] >= 0
    requires i <= j <= |xs|
    ensures Sum(xs[..i]) <= Sum(xs[..j])
    decreases j - i
  {
    if i < j {
      SumGrows(xs, i, j - 1);
      assert xs[..j][..j - 1] == xs[..j - 1];
    }
  }

  /** With no negative advance and a total below 2^32, `curOffset` never wraps. */
  lemma {:induction false} NoWrap(xs: seq<int>)
    requires forall k :: 0 <= k < |xs| ==> xs[k] >= 0
    requires Sum(xs) < 0x1_0000_0000
    ensures CurOffset(xs) == Sum(xs)
  {
    if xs != [] {
      var init := xs[..|xs| - 1];
      assert forall k :: 0 <= k < |init| ==> init[k] == xs[k];
      NoWrap(init);
    }
  }

  /**
   * When no advance is negative and their total stays below 2^32, each
   * offset is the plain sum of the advances before it, and the offsets
   * never decrease.
   */
  lemma OffsetsAreRunningSums(raw: seq<RawField>, c: Catalog, pointerSize: nat)
    requires forall k :: 0 <= k < |raw| ==> FieldAdvance(raw[k], c, pointerSize) >= 0
    requires Sum(Advances(raw, c, pointerSize)) < 0x1_0000_0000
    ensures forall k :: 0 <= k < |raw| ==>
      Layout(raw, c, pointerSize)[k].offset == Sum(Advances(raw, c, pointerSize)[..k])
    ensures forall i, j :: 0 <= i <= j < |raw| ==>
      Layout(raw, c, pointerSize)[i].offset <= Layout(raw, c, pointerSize)[j].offset
  {
    var xs := Advances(raw, c, pointerSize);
    assert xs[..|xs|] == xs;
    forall k | 0 <= k < |xs|
      ensures xs[k] >= 0
    {
      AdvanceAt(raw, c, pointerSize, k);
    }
    forall k | 0 <= k < |raw|
      ensures Layout(raw, c, pointerSize)[k].offset == Sum(xs[..k])
    {
      LayoutAt(raw, c, pointerSize, k);
      SumGrows(xs, k, |xs|);
      NoWrap(xs[..k]);
    }
    forall i, j | 0 <= i <= j < |raw|
      ensures Layout(raw, c, pointerSize)[i].offset <= Layout(raw, c, pointerSize)[j].offset
    {
      SumGrows(xs, i, j);
    }
  }

  // ---------------------------------------------------------------- resolution

  /** `StructIndexed` holds for every structure record. */
  predicate StructsIndexed(raws: seq<RawStruct>, c: Catalog)
  {
    forall i :: 0 <= i < |raws| ==> StructIndexed(raws[i], c)
  }

  /** The record's type index names a catalog type and its fields are indexed. */
  predicate StructIndexed(x: RawStruct, c: Catalog)
  {
    x.typeIndex < |c.types| && FieldsIndexed(x.fields, c)
  }

  /** The structures a section adds, each with its base type and laid-out fields. */
  function ResolveAll(raws: seq<RawStruct>, c: Catalog, pointerSize: nat): (r: seq<Structure>)
    ensures |r| == |raws|
  {
    if raws == [] then []
    else
      var k := |raws| - 1;
      ResolveAll(raws[..k], c, pointerSize) + [Structure(raws[k].typeIndex, Layout(raws[k].fields, c, pointerSize))]
  }

  /** The `i`-th structure added is the `i`-th raw one, with its base type and its fields laid out. */
  lemma {:induction false} ResolveAt(raws: seq<RawStruct>, c: Catalog, pointerSize: nat, i: nat)
    requires i < |raws|
    ensures ResolveAll(raws, c, pointerSize)[i] == Structure(raws[i].typeIndex, Layout(raws[i].fields, c, pointerSize))
  {
    var n := |raws| - 1;
    if i < n {
      ResolveAt(raws[..n], c, pointerSize, i);
    }
  }

  /** Every structure added keeps the base type of its raw structure. */
  lemma ResolveKeepsTypes(raws: seq<RawStruct>, c: Catalog, pointerSize: nat)
    ensures forall i :: 0 <= i < |raws| ==> ResolveAll(raws, c, pointerSize)[i].typeIndex == raws[i].typeIndex
  {
    forall i | 0 <= i < |raws|
      ensures ResolveAll(raws, c, pointerSize)[i].typeIndex == raws[i].typeIndex
    {
      ResolveAt(raws, c, pointerSize, i);
    }
  }

  /** Reading one more structure appends it, resolved. */
  lemma ResolveSnoc(raws: seq<RawStruct>, x: RawStruct, c: Catalog, pointerSize: nat)
    ensures ResolveAll(raws + [x], c, pointerSize)
      == ResolveAll(raws, c, pointerSize) + [Structure(x.typeIndex, Layout(x.fields, c, pointerSize))]
  {
    assert forall k :: 0 <= k < |raws| ==> (raws + [x])[k] == raws[k];
    assert (raws + [x])[..|raws|] == raws;
  }

  /** `ResolveSnoc` for the prefixes of one section. */
  lemma ResolvePrefix(before: seq<Structure>, all: seq<RawStruct>, i: nat, c: Catalog, pointerSize: nat)
    requires i < |all|
    ensures before + ResolveAll(all[..i + 1], c, pointerSize)
      == before + ResolveAll(all[..i], c, pointerSize) + [Structure(all[i].typeIndex, Layout(all[i].fields, c, pointerSize))]
  {
    var x := Structure(all[i].typeIndex, Layout(all[i].fields, c, pointerSize));
    assert all[..i + 1] == all[..i] + [all[i]];
    ResolveSnoc(all[..i], all[i], c, pointerSize);
    assert before + (ResolveAll(all[..i], c, pointerSize) + [x]) == before + ResolveAll(all[..i], c, pointerSize) + [x];
  }

  /** Like the layout, resolution depends on the names and the types of the catalog only. */
  lemma {:induction false} ResolveIgnoresStructures(raws: seq<RawStruct>, c: Catalog, c': Catalog, pointerSize: nat)
    requires SameTables(c, c')
    ensures ResolveAll(raws, c', pointerSize) == ResolveAll(raws, c, pointerSize)
  {
    if raws != [] {
      var n := |raws| - 1;
      ResolveIgnoresStructures(raws[..n], c, c', pointerSize);
      LayoutIgnoresStructures(raws[n].fields, c, c', pointerSize);
    }
  }

  /** When the declaration parser always gives well-formed declarations, so do the names it derives. */
  lemma NamesWellFormed(raws: seq<Bytes>, declare: Bytes -> Declaration)
    ensures (forall b :: WellFormed(declare(b))) ==>
      forall i :: 0 <= i < |raws| ==> WellFormed(NamesOf(raws, declare)[i].decl)
  {
    forall i | 0 <= i < |raws|
      ensures NamesOf(raws, declare)[i] == Name(raws[i], declare(raws[i]))
    {
      NameAt(raws, declare, i);
    }
  }

  /** Every structure's base type is in the table, and every name is well formed. */
  predicate ValidCatalog(c: Catalog)
  {
    && (forall i :: 0 <= i < |c.names| ==> WellFormed(c.names[i].decl))
    && (forall i :: 0 <= i < |c.structures| ==> c.structures[i].typeIndex < |c.types|)
  }

  /** The catalog with the names and types of a catalog block added. */
  function AddNamesAndTypes(c: Catalog, raw: RawCatalog, pointerSize: nat, declare: Bytes -> Declaration): (r: Catalog)
    requires |raw.typeSizes| == |raw.typeNames|
    ensures r.names == c.names + NamesOf(raw.names, declare)
    ensures r.structures == c.structures
  {
    c.(names := c.names + NamesOf(raw.names, declare),
       types := PatchSizes(c.types + TypesOf(raw.typeNames), raw.typeSizes, pointerSize))
  }

  /** What the catalog demands of a block's indices before it can be added to `c`. */
  predicate Indexable(c: Catalog, raw: RawCatalog, pointerSize: nat, declare: Bytes -> Declaration)
  {
    && |raw.typeSizes| == |raw.typeNames|
    && StructsIndexed(raw.structs, AddNamesAndTypes(c, raw, pointerSize, declare))
  }

  /**
   * A second catalog block patches sizes counting from the first type of the
   * whole table, not from its own first type: type `i` gets the `i`-th stored
   * size of the new block, and the new block's own last type keeps size 0
   * when the table already had types.
   */
  lemma ReloadPatchesFromStart(c: Catalog, raw: RawCatalog, pointerSize: nat, declare: Bytes -> Declaration, i: nat)
    requires Indexable(c, raw, pointerSize, declare)
    requires i < |c.types| + |raw.typeNames|
    ensures Extend(c, raw, pointerSize, declare).types[i]
      == if i < |raw.typeSizes| then (c.types + TypesOf(raw.typeNames))[i].(size := EffectiveSize(raw.typeSizes[i], pointerSize))
         else (c.types + TypesOf(raw.typeNames))[i]
    ensures 0 < |c.types| && 0 < |raw.typeNames| && i == |c.types| + |raw.typeNames| - 1 ==> Extend(c, raw, pointerSize, declare).types[i].size == 0
  {
    var all := c.types + TypesOf(raw.typeNames);
    PatchAt(all, raw.typeSizes, pointerSize, i);
    if |c.types| <= i {
      TypeAt(raw.typeNames, i - |c.types|);
    }
  }

  /** The catalog once a whole catalog block has been read into it. */
  function Extend(c: Catalog, raw: RawCatalog, pointerSize: nat, declare: Bytes -> Declaration): (r: Catalog)
    requires Indexable(c, raw, pointerSize, declare)
    ensures |r.names| == |c.names| + |raw.names| && |r.types| == |c.types| + |raw.typeNames|
    ensures |r.structures| == |c.structures| + |raw.structs|
    ensures r.structures[..|c.structures|] == c.structures
    ensures ValidCatalog(c) && (forall b :: WellFormed(declare(b))) ==> ValidCatalog(r)
  {
    NamesWellFormed(raw.names, declare);
    var withTypes := AddNamesAndTypes(c, raw, pointerSize, declare);
    ResolveKeepsTypes(raw.structs, withTypes, pointerSize);
    withTypes.(structures := c.structures + ResolveAll(raw.structs, withTypes, pointerSize))
  }
}
