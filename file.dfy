/**
 * The `.blend` reader as an object: a byte stream with a read position, the
 * pointer size and version taken from the file header, the list of block
 * headers, the type catalog, and a cache of decoded blocks keyed by their
 * stored address. Every read advances the position exactly as the pure
 * functions of `Cursor`, `Sdna` and `Directory` say, and `Load` leaves the
 * object in the state `LoadSpec` describes.
 */
module Blend {
  import opened Cursor
  import opened Sdna
  import opened Directory

  /** The cleaning loop of `readHeader`: the code with its NUL bytes taken out. */
  method CleanCode(code: Bytes) returns (clean: Bytes)
    ensures clean == StripNul(code)
  {
    clean := [];
    var i := 0;
    while i < |code|
      invariant 0 <= i <= |code|
      invariant clean == StripNul(code[..i])
    {
      assert code[..i + 1] == code[..i] + [code[i]];
      StripNulPush(code[..i], code[i]);
      if code[i] != 0 {
        clean := clean + [code[i]];
      }
      i := i + 1;
    }
    TakeAll(code, |code|);
  }

  /** The NUL-terminated loop of `readString`: the bytes before the next NUL and the position after it. */
  method BytesToNul(data: Bytes, p: nat) returns (res: Bytes, next: nat)
    requires NulFrom(data, p).Some?
    ensures NulFrom(data, p) == Some(next - 1) && p < next && res == data[p..next - 1]
  {
    ghost var z := NulFrom(data, p).value;
    res := [];
    var cur := data[p];
    next := p + 1;
    while cur != 0
      invariant p < next <= z + 1 && cur == data[next - 1]
      invariant res == data[p..next - 1]
      decreases z + 1 - next
    {
      res := res + [cur];
      cur := data[next];
      next := next + 1;
      assert data[p..next - 1] == data[p..next - 2] + [data[next - 2]];
    }
  }

  /** The `multi` loop over a field's array dimensions. */
  method ArrayMultiOf(dims: seq<int>) returns (multi: int)
    ensures multi == ArrayMulti(dims)
  {
    multi := 0;
    var i := 0;
    while i < |dims|
      invariant 0 <= i <= |dims|
      invariant multi == ArrayMulti(dims[..i])
    {
      assert dims[..i + 1][..i] == dims[..i];
      var s := dims[i];
      if s != -1 {
        if multi == 0 {
          multi := multi + s;
        } else {
          multi := multi * s;
        }
      }
      i := i + 1;
    }
    assert dims[..|dims|] == dims;
  }

  /** How `curOffset` moves past one field, each update wrapping as an `unsigned int` does. */
  method StepOffset(curOffset: nat, d: Declaration, typeSize: nat, pointerSize: nat) returns (next: nat)
    requires WellFormed(d) && curOffset < 0x1_0000_0000
    ensures next == Wrap32(curOffset + Advance(d, typeSize, pointerSize))
  {
    next := curOffset;
    var offsetSet := false;
    if d.isPointer {
      var amount := 0;
      if d.isArray {
        amount := d.arraySizes[0];
      }
      if amount == 0 {
        amount := 1;
      }
      next := Wrap32(next + pointerSize * amount);
      offsetSet := true;
    } else if d.isArray {
      var multi := ArrayMultiOf(d.arraySizes);
      if multi != 0 {
        offsetSet := true;
      }
      next := Wrap32(next + typeSize * multi);
    }
    if !offsetSet {
      next := Wrap32(next + typeSize);
    }
  }

  /** One turn of the fields loop: the field placed at `curOffset`, and `curOffset` moved past it. */
  method PlaceField(f: RawField, curOffset: nat, ghost all: seq<RawField>, ghost j: nat, c: Catalog, pointerSize: nat)
    returns (field: Field, next: nat)
    requires j < |all| && f == all[j] && FieldIndexed(f, c)
    requires curOffset == CurOffset(Advances(all[..j], c, pointerSize))
    ensures Layout(all[..j + 1], c, pointerSize) == Layout(all[..j], c, pointerSize) + [field]
    ensures next == CurOffset(Advances(all[..j + 1], c, pointerSize))
  {
    LayoutPrefix(all, j, c, pointerSize);
    field := Field(f.typeIndex, f.nameIndex, curOffset);
    next := StepOffset(curOffset, c.names[f.nameIndex].decl, c.types[f.typeIndex].size, pointerSize);
  }

  /**
   * A cache of decoded blocks: `decoded` lists the blocks the decoder ran on,
   * at most one per address, and `cache` maps exactly their addresses to
   * what the decoder made of them.
   */
  ghost predicate CacheOf<Record>(decoded: seq<Block>, cache: map<nat, Record>, decoder: Block -> Record)
  {
    && (forall i, j :: 0 <= i < j < |decoded| ==> decoded[i].address != decoded[j].address)
    && (forall i :: 0 <= i < |decoded| ==>
          decoded[i].address in cache && cache[decoded[i].address] == decoder(decoded[i]))
    && (forall a :: a in cache ==> exists i :: 0 <= i < |decoded| && decoded[i].address == a)
  }

  /** Decoding a block at an address not yet cached, and caching the result, keeps a cache a cache. */
  lemma CacheAdd<Record>(decoded: seq<Block>, cache: map<nat, Record>, decoder: Block -> Record, b: Block)
    requires CacheOf(decoded, cache, decoder) && b.address !in cache
    ensures CacheOf(decoded + [b], cache[b.address := decoder(b)], decoder)
  {
    var decoded', cache' := decoded + [b], cache[b.address := decoder(b)];
    forall a | a in cache' ensures exists i :: 0 <= i < |decoded'| && decoded'[i].address == a {
      if a == b.address {
        assert decoded'[|decoded|].address == a;
      } else {
        var i :| 0 <= i < |decoded| && decoded[i].address == a;
        assert decoded'[i].address == a;
      }
    }
  }

  /**
   * A loaded file. `trim` stands for the string helper every string read
   * goes through, `declare` for the declaration parser that derives a
   * name's pointer and array facts from its text, and `decoder` for the block
   * decoder that turns a block into a scene object; both are outside this model.
   */
  class BlendFile<Record> {
    var data: Bytes
    var pos: nat
    var pointerSize: nat
    var magicOk: bool
    var version: Bytes
    var blocks: seq<Block>
    var catalog: Catalog
    var parsedBlocks: map<nat, Record>
    /** The blocks the decoder has been run on, in order. */
    ghost var decoded: seq<Block>
    const trim: Bytes -> Bytes
    const declare: Bytes -> Declaration
    const decoder: Block -> Record

    /**
     * Every block is bound to a structure of a consistent catalog, and the
     * cache is consistent.
     */
    ghost predicate Valid()
      reads this
    {
      && ValidCatalog(catalog)
      && Linked(blocks, catalog)
      && DeclaresWellFormed()
      && CacheValid()
    }

    /** The declaration parser yields well-formed declarations. */
    ghost predicate DeclaresWellFormed()
    {
      forall b :: WellFormed(declare(b))
    }

    /**
     * The cache holds, for each address, what the decoder made of the first
     * block asked for at that address; the decoder ran once per cached address.
     */
    ghost predicate CacheValid()
      reads this`decoded, this`parsedBlocks
    {
      CacheOf(decoded, parsedBlocks, decoder)
    }

    constructor (trim: Bytes -> Bytes, declare: Bytes -> Declaration, decoder: Block -> Record)
      requires forall b :: WellFormed(declare(b))
      ensures Valid()
      ensures this.trim == trim && this.declare == declare && this.decoder == decoder
      ensures data == [] && pos == 0 && pointerSize == 0 && blocks == []
      ensures catalog == Catalog([], [], []) && parsedBlocks == map[] && decoded == []
    {
      data := [];
      pos := 0;
      pointerSize := 0;
      magicOk := false;
      version := [];
      blocks := [];
      catalog := Catalog([], [], []);
      parsedBlocks := map[];
      decoded := [];
      this.trim := trim;
      this.declare := declare;
      this.decoder := decoder;
    }

    // ------------------------------------------------------------ reads

    /** Moves the position to the next multiple of 4. */
    method Align()
      modifies this`pos
      ensures pos == AlignUp(old(pos))
    {
      var trim := pos % 4;
      if trim != 0 {
        pos := pos + 4 - trim;
      }
    }

    /** `read<T>()` for an unsigned integer `width` bytes wide. */
    method ReadUInt(width: nat) returns (v: nat)
      requires UIntAt(data, pos, width).Parsed?
      modifies this`pos
      ensures UIntAt(data, old(pos), width) == Parsed(v, pos)
    {
      v := LittleEndian(data[pos..pos + width]);
      pos := pos + width;
    }

    /** `readString(length)`: a fixed number of bytes, or with 0 the bytes up to a NUL; trimmed either way. */
    method ReadString(length: nat) returns (s: Bytes)
      requires StringAt(data, pos, length, trim).Parsed?
      modifies this`pos
      ensures StringAt(data, old(pos), length, trim) == Parsed(s, pos)
    {
      if length == 0 {
        var res, next := BytesToNul(data, pos);
        pos := next;
        s := trim(res);
      } else {
        s := trim(data[pos..pos + length]);
        pos := pos + length;
      }
    }

    /** `readHeader`: one block header from the current position. */
    method ReadHeader() returns (b: Block)
      requires HeaderAt(data, pos, pointerSize, trim).Parsed?
      modifies this`pos
      ensures HeaderAt(data, old(pos), pointerSize, trim) == Parsed(b, pos)
    {
      ghost var p := pos;
      var raw := ReadString(4);
      var code := CleanCode(raw);
      if code != ENDB {
        var size := ReadUInt(4);
        var address := ReadUInt(PointerBytes(pointerSize));
        var sdnaIndex := ReadUInt(4);
        var count := ReadUInt(4);
        b := Block(code, size, address, sdnaIndex, count, pos, None);
      } else {
        var size := ReadUInt(4);
        b := Block(code, size, 0, 0, 0, pos, None);
      }
    }

    // ------------------------------------------------------------ load, phase by phase

    /** The 12-byte file header: magic, pointer-size marker, endianness marker (unused) and version. */
    method ReadFileHeader()
      requires pos == 0 && 12 <= |data|
      modifies this`pos, this`magicOk, this`pointerSize, this`version
      ensures var h := FileHeaderAt(data, old(pointerSize), trim);
        && h.Parsed? && pos == h.next
        && magicOk == h.value.magicOk && pointerSize == h.value.pointerSize && version == h.value.version
    {
      var info := ReadString(7);
      magicOk := info == BLENDER;
      var marker := ReadString(1);
      if marker == [POINTER8] {
        pointerSize := 8;
      } else if marker == [POINTER4] {
        pointerSize := 4;
      }
      var _ := ReadString(1);
      version := ReadString(3);
    }

    /** Reads the header of block `all[k]` of a scan, found at the position `q` the scan has reached. */
    method ReadScanHeader(ghost header: nat -> Parsed<Block>, ghost limit: nat, ghost q: nat,
                          ghost all: seq<Block>, ghost k: nat, ghost end: nat) returns (b: Block)
      requires Advancing(header, limit) && ReadsHeaders(header, data, pointerSize, trim)
      requires k < |all| && ScanWith(header, limit, q) == Parsed(all[k..], end) && pos == q
      modifies this`pos
      ensures b == all[k] && pos == b.offset
    {
      ScanAt(header, limit, q, all, k, end);
      b := ReadHeader();
    }

    /**
     * Skips the payload of block `b == all[k]`, which is no catalog block,
     * leaving the position on the next header of the scan.
     */
    method SkipPayload(b: Block, ghost header: nat -> Parsed<Block>, ghost limit: nat, ghost q: nat,
                       ghost all: seq<Block>, ghost k: nat, ghost end: nat) returns (ghost q': nat)
      requires Advancing(header, limit)
      requires k < |all| && ScanWith(header, limit, q) == Parsed(all[k..], end)
      requires b == all[k] && pos == b.offset && !IsCatalogCode(b.code)
      modifies this`pos
      ensures k + 1 < |all| && q' == pos && ScanWith(header, limit, q') == Parsed(all[k + 1..], end)
    {
      ScanAt(header, limit, q, all, k, end);
      pos := pos + b.size;
      q' := pos;
    }

    /** The block scan of `load`: headers and payload skips until the DNA1 (or SDNA) block, which is kept. */
    method ScanBlocks(ghost header: nat -> Parsed<Block>)
      requires Advancing(header, |data|) && ReadsHeaders(header, data, pointerSize, trim)
      requires ScanWith(header, |data|, pos).Parsed?
      modifies this`pos, this`blocks
      ensures blocks == old(blocks) + ScanWith(header, |data|, old(pos)).value
      ensures pos == ScanWith(header, |data|, old(pos)).next
    {
      ghost var limit := |data|;
      ghost var all := ScanWith(header, limit, pos).value;
      ghost var end := ScanWith(header, limit, pos).next;
      assert all[0..] == all;
      ghost var k := 0;
      ghost var q := pos;
      var b := ReadScanHeader(header, limit, q, all, k, end);
      blocks := blocks + [b];
      while !IsCatalogCode(b.code)
        invariant k < |all| && b == all[k] && pos == b.offset && blocks == old(blocks) + all[..k + 1]
        invariant ScanWith(header, limit, q) == Parsed(all[k..], end)
        decreases |all| - k
      {
        q := SkipPayload(b, header, limit, q, all, k, end);
        b := ReadScanHeader(header, limit, q, all, k + 1, end);
        TakeNext(all, k + 1);
        blocks := blocks + [b];
        k := k + 1;
      }
      ScanAt(header, limit, q, all, k, end);
      TakeAll(all, k + 1);
    }

    /** NAME: two tags, the count, then the names. */
    method ReadNames()
      requires NamesSectionAt(data, pos, trim).Parsed?
      modifies this`pos, this`catalog
      ensures var r := NamesSectionAt(data, old(pos), trim);
        catalog == old(catalog).(names := old(catalog).names + NamesOf(r.value, declare)) && pos == r.next
    {
      var _ := ReadString(4);
      var _ := ReadString(4);
      var numNames := ReadUInt(4);
      ReadNameList(numNames);
      Align();
    }

    /** The names loop: every name is kept with what the declaration parser derives from it. */
    method ReadNameList(count: nat)
      requires CStringsAt(data, pos, count, trim).Parsed?
      modifies this`pos, this`catalog
      ensures var r := CStringsAt(data, old(pos), count, trim);
        catalog == old(catalog).(names := old(catalog).names + NamesOf(r.value, declare)) && pos == r.next
    {
      ghost var c0 := catalog;
      ghost var all := CStringsAt(data, pos, count, trim).value;
      ghost var end := CStringsAt(data, pos, count, trim).next;
      assert all[0..] == all;
      var i := 0;
      ghost var left := count;
      while i < count
        invariant 0 <= i <= count && |all| == count && left == count - i
        invariant CStringsAt(data, pos, left, trim) == Parsed(all[i..], end)
        invariant catalog == c0.(names := c0.names + NamesOf(all[..i], declare))
      {
        i, left := AddName(all, i, left, end, c0);
      }
      TakeAll(all, count);
    }

    /** One turn of the names loop: the `i`-th name read, declared and appended to the catalog. */
    method AddName(ghost all: seq<Bytes>, i: nat, ghost left: nat, ghost end: nat, ghost c0: Catalog)
      returns (next: nat, ghost rest: nat)
      requires i < |all| && left == |all| - i && CStringsAt(data, pos, left, trim) == Parsed(all[i..], end)
      requires catalog == c0.(names := c0.names + NamesOf(all[..i], declare))
      modifies this`pos, this`catalog
      ensures next == i + 1 && rest == left - 1 && CStringsAt(data, pos, rest, trim) == Parsed(all[next..], end)
      ensures catalog == c0.(names := c0.names + NamesOf(all[..next], declare))
    {
      var s := ReadCString(all, i, left, end);
      NamesPrefix(c0.names, all, i, declare);
      catalog := catalog.(names := catalog.names + [Name(s, declare(s))]);
      next, rest := i + 1, left - 1;
    }

    /** One NUL-terminated string, the `j`-th of `all`. */
    method ReadCString(ghost all: seq<Bytes>, ghost j: nat, ghost left: nat, ghost end: nat) returns (s: Bytes)
      requires j < |all| && left == |all| - j && CStringsAt(data, pos, left, trim) == Parsed(all[j..], end)
      modifies this`pos
      ensures s == all[j] && CStringsAt(data, pos, left - 1, trim) == Parsed(all[j + 1..], end)
    {
      CStringsStep(data, pos, left, trim);
      s := ReadString(0);
      ConsAt(s, CStringsAt(data, pos, left - 1, trim), all, j, end);
    }

    /** TYPE: a tag, the count, then the type names; the count is kept for the sizes that follow. */
    method ReadTypes() returns (numTypes: nat)
      requires TypesSectionAt(data, pos, trim).Parsed?
      modifies this`pos, this`catalog
      ensures var r := TypesSectionAt(data, old(pos), trim);
        && catalog == old(catalog).(types := old(catalog).types + TypesOf(r.value)) && pos == r.next
        && numTypes == |r.value|
    {
      var _ := ReadString(4);
      numTypes := ReadUInt(4);
      ReadTypeList(numTypes);
      Align();
    }

    /** The types loop: the i-th type name becomes a type with id i and, for now, size 0. */
    method ReadTypeList(count: nat)
      requires CStringsAt(data, pos, count, trim).Parsed?
      modifies this`pos, this`catalog
      ensures var r := CStringsAt(data, old(pos), count, trim);
        catalog == old(catalog).(types := old(catalog).types + TypesOf(r.value)) && pos == r.next
    {
      ghost var c0 := catalog;
      ghost var all := CStringsAt(data, pos, count, trim).value;
      ghost var end := CStringsAt(data, pos, count, trim).next;
      assert all[0..] == all;
      var i := 0;
      ghost var left := count;
      while i < count
        invariant 0 <= i <= count && |all| == count && left == count - i
        invariant CStringsAt(data, pos, left, trim) == Parsed(all[i..], end)
        invariant catalog == c0.(types := c0.types + TypesOf(all[..i]))
      {
        i, left := AddType(all, i, left, end, c0);
      }
      TakeAll(all, count);
    }

    /** One turn of the types loop: the `i`-th type name appended to the catalog with size 0. */
    method AddType(ghost all: seq<Bytes>, i: nat, ghost left: nat, ghost end: nat, ghost c0: Catalog)
      returns (next: nat, ghost rest: nat)
      requires i < |all| && left == |all| - i && CStringsAt(data, pos, left, trim) == Parsed(all[i..], end)
      requires catalog == c0.(types := c0.types + TypesOf(all[..i]))
      modifies this`pos, this`catalog
      ensures next == i + 1 && rest == left - 1 && CStringsAt(data, pos, rest, trim) == Parsed(all[next..], end)
      ensures catalog == c0.(types := c0.types + TypesOf(all[..next]))
    {
      var s := ReadCString(all, i, left, end);
      TypesPrefix(c0.types, all, i);
      catalog := catalog.(types := catalog.types + [DnaType(s, i, 0)]);
      next, rest := i + 1, left - 1;
    }

    /** TLEN: a tag, then one size per type of this file. */
    method ReadTypeLengths(numTypes: nat)
      requires LengthsSectionAt(data, pos, numTypes, trim).Parsed? && numTypes <= |catalog.types|
      modifies this`pos, this`catalog
      ensures var r := LengthsSectionAt(data, old(pos), numTypes, trim);
        catalog == old(catalog).(types := PatchSizes(old(catalog).types, r.value, pointerSize)) && pos == r.next
    {
      var _ := ReadString(4);
      ReadSizeList(numTypes);
      Align();
    }

    /** The sizes loop: the i-th size goes to the i-th type of the whole table, 0 meaning the pointer size. */
    method ReadSizeList(count: nat)
      requires UIntsAt(data, pos, count, 2).Parsed? && count <= |catalog.types|
      modifies this`pos, this`catalog
      ensures var r := UIntsAt(data, old(pos), count, 2);
        catalog == old(catalog).(types := PatchSizes(old(catalog).types, r.value, pointerSize)) && pos == r.next
    {
      ghost var c0 := catalog;
      ghost var all := UIntsAt(data, pos, count, 2).value;
      ghost var end := UIntsAt(data, pos, count, 2).next;
      assert all[0..] == all;
      var i := 0;
      ghost var left := count;
      while i < count
        invariant 0 <= i <= count && |all| == count && left == count - i
        invariant UIntsAt(data, pos, left, 2) == Parsed(all[i..], end)
        invariant catalog == c0.(types := PatchSizes(c0.types, all[..i], pointerSize))
      {
        i, left := SetSize(all, i, left, end, c0);
      }
      TakeAll(all, count);
    }

    /** One turn of the sizes loop: the `i`-th size read and given to type `i`, 0 standing for the pointer size. */
    method SetSize(ghost all: seq<nat>, i: nat, ghost left: nat, ghost end: nat, ghost c0: Catalog)
      returns (next: nat, ghost rest: nat)
      requires i < |all| && left == |all| - i && UIntsAt(data, pos, left, 2) == Parsed(all[i..], end)
      requires |all| <= |c0.types| && catalog == c0.(types := PatchSizes(c0.types, all[..i], pointerSize))
      modifies this`pos, this`catalog
      ensures next == i + 1 && rest == left - 1 && UIntsAt(data, pos, rest, 2) == Parsed(all[next..], end)
      ensures catalog == c0.(types := PatchSizes(c0.types, all[..next], pointerSize))
    {
      var size := ReadSize(all, i, left, end);
      PatchPrefix(c0.types, all, i, pointerSize);
      PatchAt(c0.types, all[..i], pointerSize, i);
      var t := catalog.types[i].(size := size);
      if t.size == 0 {
        t := t.(size := pointerSize);
      }
      catalog := catalog.(types := catalog.types[i := t]);
      next, rest := i + 1, left - 1;
    }

    /** One 2-byte size, the `j`-th of `all`. */
    method ReadSize(ghost all: seq<nat>, ghost j: nat, ghost left: nat, ghost end: nat) returns (size: nat)
      requires j < |all| && left == |all| - j && UIntsAt(data, pos, left, 2) == Parsed(all[j..], end)
      modifies this`pos
      ensures size == all[j] && UIntsAt(data, pos, left - 1, 2) == Parsed(all[j + 1..], end)
    {
      UIntsStep(data, pos, left, 2);
      size := ReadUInt(2);
      ConsAt(size, UIntsAt(data, pos, left - 1, 2), all, j, end);
    }

    /** One structure, the `i`-th of `all`: its type index, its field count, then its fields. */
    method ReadStructure(ghost all: seq<RawStruct>, ghost i: nat, ghost left: nat, ghost end: nat, ghost c0: Catalog)
      returns (s: Structure)
      requires i < |all| && left == |all| - i && RawStructsAt(data, pos, left) == Parsed(all[i..], end)
      requires StructIndexed(all[i], c0) && SameTables(c0, catalog)
      modifies this`pos
      ensures s == Structure(all[i].typeIndex, Layout(all[i].fields, c0, pointerSize))
      ensures RawStructsAt(data, pos, left - 1) == Parsed(all[i + 1..], end)
    {
      var index, numFields, next := ReadStructHead(all, i, left, end);
      LayoutIgnoresStructures(all[i].fields, c0, catalog, pointerSize);
      var fields := ReadFieldList(numFields);
      s := Structure(index, fields);
    }

    /** The head of the `i`-th structure of `all`: its type index and its field count. */
    method ReadStructHead(ghost all: seq<RawStruct>, ghost i: nat, ghost left: nat, ghost end: nat)
      returns (index: nat, numFields: nat, ghost next: nat)
      requires i < |all| && left == |all| - i && RawStructsAt(data, pos, left) == Parsed(all[i..], end)
      modifies this`pos
      ensures index == all[i].typeIndex && RawFieldsAt(data, pos, numFields) == Parsed(all[i].fields, next)
      ensures RawStructsAt(data, next, left - 1) == Parsed(all[i + 1..], end)
    {
      RawStructsStep(data, pos, left);
      ghost var x := RawStructAt(data, pos);
      ConsAt(x.value, RawStructsAt(data, x.next, left - 1), all, i, end);
      RawStructParts(data, pos);
      index := ReadUInt(2);
      numFields := ReadUInt(2);
      next := x.next;
    }

    /** The fields loop: each field is placed at the running `curOffset`, which then moves past it. */
    method ReadFieldList(count: nat) returns (fields: seq<Field>)
      requires RawFieldsAt(data, pos, count).Parsed? && FieldsIndexed(RawFieldsAt(data, pos, count).value, catalog)
      modifies this`pos
      ensures var r := RawFieldsAt(data, old(pos), count);
        fields == Layout(r.value, catalog, pointerSize) && pos == r.next
    {
      ghost var all := RawFieldsAt(data, pos, count).value;
      ghost var end := RawFieldsAt(data, pos, count).next;
      assert all[0..] == all;
      fields := [];
      var curOffset: nat := 0;
      var j := 0;
      ghost var left := count;
      while j < count
        invariant 0 <= j <= count && |all| == count && left == count - j && FieldsIndexed(all, catalog)
        invariant RawFieldsAt(data, pos, left) == Parsed(all[j..], end)
        invariant fields == Layout(all[..j], catalog, pointerSize)
        invariant curOffset == CurOffset(Advances(all[..j], catalog, pointerSize))
      {
        var field;
        field, curOffset, j, left := ReadPlacedField(all, j, left, end, curOffset);
        fields := fields + [field];
      }
      TakeAll(all, count);
    }

    /** One turn of the fields loop: the `j`-th field of `all` read, placed, and `curOffset` moved past it. */
    method ReadPlacedField(ghost all: seq<RawField>, j: nat, ghost left: nat, ghost end: nat, curOffset: nat)
      returns (field: Field, offset: nat, next: nat, ghost rest: nat)
      requires j < |all| && left == |all| - j && RawFieldsAt(data, pos, left) == Parsed(all[j..], end)
      requires FieldsIndexed(all, catalog) && curOffset == CurOffset(Advances(all[..j], catalog, pointerSize))
      modifies this`pos
      ensures next == j + 1 && rest == left - 1 && RawFieldsAt(data, pos, rest) == Parsed(all[next..], end)
      ensures Layout(all[..next], catalog, pointerSize) == Layout(all[..j], catalog, pointerSize) + [field]
      ensures offset == CurOffset(Advances(all[..next], catalog, pointerSize))
    {
      var f := ReadField(all, j, left, end);
      field, offset := PlaceField(f, curOffset, all, j, catalog, pointerSize);
      next, rest := j + 1, left - 1;
    }

    /** One field: a 2-byte type index and a 2-byte name index, the `j`-th of `all`. */
    method ReadField(ghost all: seq<RawField>, ghost j: nat, ghost left: nat, ghost end: nat) returns (f: RawField)
      requires j < |all| && left == |all| - j && RawFieldsAt(data, pos, left) == Parsed(all[j..], end)
      modifies this`pos
      ensures f == all[j] && RawFieldsAt(data, pos, left - 1) == Parsed(all[j + 1..], end)
    {
      RawFieldsStep(data, pos, left);
      var typeIndex := ReadUInt(2);
      var nameIndex := ReadUInt(2);
      f := RawField(typeIndex, nameIndex);
      ConsAt(f, RawFieldsAt(data, pos, left - 1), all, j, end);
    }

    /** STRC: a tag, the count, then the structures. */
    method ReadStructures()
      requires StructuresSectionAt(data, pos, trim).Parsed?
      requires StructsIndexed(StructuresSectionAt(data, pos, trim).value, catalog)
      modifies this`pos, this`catalog
      ensures var r := StructuresSectionAt(data, old(pos), trim);
        && catalog == old(catalog).(structures := old(catalog).structures + ResolveAll(r.value, old(catalog), pointerSize))
        && pos == r.next
    {
      var _ := ReadString(4);
      var numStructs := ReadUInt(4);
      ReadStructureList(numStructs);
      Align();
    }

    /** The structures loop: every structure in order, appended to the catalog as it is read. */
    method ReadStructureList(count: nat)
      requires RawStructsAt(data, pos, count).Parsed? && StructsIndexed(RawStructsAt(data, pos, count).value, catalog)
      modifies this`pos, this`catalog
      ensures var r := RawStructsAt(data, old(pos), count);
        && catalog == old(catalog).(structures := old(catalog).structures + ResolveAll(r.value, old(catalog), pointerSize))
        && pos == r.next
    {
      ghost var c0 := catalog;
      ghost var all := RawStructsAt(data, pos, count).value;
      ghost var end := RawStructsAt(data, pos, count).next;
      assert all[0..] == all;
      var i := 0;
      ghost var left := count;
      while i < count
        invariant 0 <= i <= count && |all| == count && left == count - i && StructsIndexed(all, c0)
        invariant RawStructsAt(data, pos, left) == Parsed(all[i..], end)
        invariant catalog == c0.(structures := c0.structures + ResolveAll(all[..i], c0, pointerSize))
      {
        i, left := AddStructure(all, i, left, end, c0);
      }
      TakeAll(all, count);
    }

    /** One turn of the structures loop: the `i`-th structure read and appended to the catalog. */
    method AddStructure(ghost all: seq<RawStruct>, i: nat, ghost left: nat, ghost end: nat, ghost c0: Catalog)
      returns (next: nat, ghost rest: nat)
      requires i < |all| && left == |all| - i && StructsIndexed(all, c0)
      requires RawStructsAt(data, pos, left) == Parsed(all[i..], end)
      requires catalog == c0.(structures := c0.structures + ResolveAll(all[..i], c0, pointerSize))
      modifies this`pos, this`catalog
      ensures next == i + 1 && rest == left - 1 && RawStructsAt(data, pos, rest) == Parsed(all[next..], end)
      ensures catalog == c0.(structures := c0.structures + ResolveAll(all[..next], c0, pointerSize))
    {
      ResolvePrefix(c0.structures, all, i, c0, pointerSize);
      var s := ReadStructure(all, i, left, end, c0);
      catalog := catalog.(structures := catalog.structures + [s]);
      next, rest := i + 1, left - 1;
    }

    /** The 12-byte file header, then the block scan that follows it. */
    method ReadContainer(bytes: Bytes)
      requires 12 <= |bytes|
      requires ScanFrom(bytes, 12, FileHeaderAt(bytes, pointerSize, trim).value.pointerSize, trim).Parsed?
      modifies this`data, this`pos, this`magicOk, this`pointerSize, this`version, this`blocks
      ensures var h := FileHeaderAt(bytes, old(pointerSize), trim).value;
        var scan := ScanFrom(bytes, 12, h.pointerSize, trim);
        && data == bytes && magicOk == h.magicOk && pointerSize == h.pointerSize && version == h.version
        && blocks == old(blocks) + scan.value && pos == scan.next
    {
      data := bytes;
      pos := 0;
      ReadFileHeader();
      HeadersRead(data, pointerSize, trim);
      ScanBlocks(Headers(data, pointerSize, trim));
    }

    /**
     * The catalog block's payload: names, types, type sizes and structures,
     * each added after what the catalog already holds.
     */
    method ReadCatalog()
      requires CatalogAt(data, pos, trim).Parsed?
      requires Indexable(catalog, CatalogAt(data, pos, trim).value, pointerSize, declare)
      modifies this`pos, this`catalog
      ensures var r := CatalogAt(data, old(pos), trim);
        catalog == Extend(old(catalog), r.value, pointerSize, declare) && pos == r.next
    {
      ghost var raw := CatalogAt(data, pos, trim).value;
      ReadNames();
      var numTypes := ReadTypes();
      ReadTypeLengths(numTypes);
      assert catalog == AddNamesAndTypes(old(catalog), raw, pointerSize, declare);
      ReadStructures();
    }

    /** Binds every block, old and new, to the structure its structure index names. */
    method LinkBlocks()
      requires forall i :: 0 <= i < |blocks| ==> blocks[i].sdnaIndex < |catalog.structures|
      requires ValidCatalog(catalog) && DeclaresWellFormed() && CacheValid()
      modifies this`blocks
      ensures blocks == LinkAll(old(blocks)) && Valid()
    {
      var i := 0;
      while i < |blocks|
        invariant 0 <= i <= |blocks| == |old(blocks)|
        invariant forall k :: 0 <= k < i ==> blocks[k] == old(blocks)[k].(structure := Some(old(blocks)[k].sdnaIndex))
        invariant forall k :: i <= k < |blocks| ==> blocks[k] == old(blocks)[k]
      {
        blocks := blocks[i := blocks[i].(structure := Some(blocks[i].sdnaIndex))];
        i := i + 1;
      }
    }

    /**
     * Every field `load` sets, other than the block list, is what the parse
     * `r` of `bytes` gives, the catalog extended from `c0`.
     */
    ghost predicate HoldsFile(bytes: Bytes, r: Parsed<RawFile>, c0: Catalog)
      reads this`data, this`pos, this`magicOk, this`pointerSize, this`version, this`catalog
    {
      && r.Parsed? && Indexable(c0, r.value.catalog, r.value.header.pointerSize, declare)
      && data == bytes && pos == r.next
      && magicOk == r.value.header.magicOk && pointerSize == r.value.header.pointerSize
      && version == r.value.header.version
      && catalog == Extend(c0, r.value.catalog, pointerSize, declare)
    }

    /** The binding half of `load`, which leaves the parsed fields as they are. */
    method LinkRead(ghost bytes: Bytes, ghost r: Parsed<RawFile>, ghost c0: Catalog)
      requires HoldsFile(bytes, r, c0)
      requires forall i :: 0 <= i < |blocks| ==> blocks[i].sdnaIndex < |catalog.structures|
      requires ValidCatalog(catalog) && DeclaresWellFormed() && CacheValid()
      modifies this`blocks
      ensures blocks == LinkAll(old(blocks)) && Valid() && HoldsFile(bytes, r, c0)
    {
      LinkBlocks();
    }

    /** The parsing half of `load`: header, block scan and catalog, with the blocks not yet bound. */
    method ReadFile(bytes: Bytes)
      requires LoadSpec(bytes, pointerSize, trim).Parsed?
      requires Indexable(catalog, LoadSpec(bytes, pointerSize, trim).value.catalog,
                         LoadSpec(bytes, pointerSize, trim).value.header.pointerSize, declare)
      modifies this`data, this`pos, this`magicOk, this`pointerSize, this`version, this`blocks, this`catalog
      ensures HoldsFile(bytes, LoadSpec(bytes, old(pointerSize), trim), old(catalog))
      ensures blocks == old(blocks) + LoadSpec(bytes, old(pointerSize), trim).value.blocks
    {
      ghost var p2 := LoadParts(bytes, pointerSize, trim);
      ReadContainer(bytes);
      ReadCatalog();
    }

    /**
     * `load`: the header, the blocks up to the catalog block, the four catalog
     * sections, then the binding of every block. Blocks and catalog entries of
     * an earlier load are kept, and the cache is left as it was.
     */
    method Load(bytes: Bytes)
      requires Valid()
      requires LoadSpec(bytes, pointerSize, trim).Parsed?
      requires var f := LoadSpec(bytes, pointerSize, trim).value;
        Indexable(catalog, f.catalog, f.header.pointerSize, declare)
      requires var f := LoadSpec(bytes, pointerSize, trim).value;
        var all := blocks + f.blocks;
        forall i :: 0 <= i < |all| ==>
          all[i].sdnaIndex < |catalog.structures| + |f.catalog.structs|
      modifies this`data, this`pos, this`magicOk, this`pointerSize, this`version, this`blocks, this`catalog
      ensures Valid() && HoldsFile(bytes, LoadSpec(bytes, old(pointerSize), trim), old(catalog))
      ensures blocks == LinkAll(old(blocks) + LoadSpec(bytes, old(pointerSize), trim).value.blocks)
    {
      ReadFile(bytes);
      LinkRead(bytes, LoadSpec(bytes, old(pointerSize), trim), old(catalog));
    }

    // ------------------------------------------------------------ the cache

    /**
     * `parseFileBlock(Block*)`: no block gives nothing; otherwise the decoder
     * runs on the block unless its address is cached already, and the cached
     * object for that address is returned.
     */
    method ParseFileBlock(b: Option<Block>) returns (r: Option<Record>)
      requires Valid()
      modifies this`parsedBlocks, this`decoded
      ensures Valid()
      ensures b.None? ==> r.None? && parsedBlocks == old(parsedBlocks) && decoded == old(decoded)
      ensures b.Some? ==> b.value.address in parsedBlocks && r == Some(parsedBlocks[b.value.address])
      ensures b.Some? ==> exists i :: 0 <= i < |decoded| && decoded[i].address == b.value.address
                                      && r == Some(decoder(decoded[i]))
      ensures b.Some? && b.value.address in old(parsedBlocks) ==>
        parsedBlocks == old(parsedBlocks) && decoded == old(decoded)
      ensures b.Some? && b.value.address !in old(parsedBlocks) ==>
        && parsedBlocks == old(parsedBlocks)[b.value.address := decoder(b.value)]
        && decoded == old(decoded) + [b.value]
    {
      if b.None? {
        return None;
      }
      var block := b.value;
      if block.address !in parsedBlocks {
        CacheAdd(decoded, parsedBlocks, decoder, block);
        parsedBlocks := parsedBlocks[block.address := decoder(block)];
        decoded := decoded + [block];
      }
      r := Some(parsedBlocks[block.address]);
    }

    /** `parseFileBlock(address)`: the first block at that address, through the cache. */
    method ParseFileBlockAt(address: nat) returns (r: Option<Record>)
      requires Valid()
      modifies this`parsedBlocks, this`decoded
      ensures Valid()
      ensures FirstWithAddress(blocks, address).None? ==>
        r.None? && parsedBlocks == old(parsedBlocks) && decoded == old(decoded)
      ensures FirstWithAddress(blocks, address).Some? ==>
        address in parsedBlocks && r == Some(parsedBlocks[address])
      ensures address in old(parsedBlocks) ==> parsedBlocks == old(parsedBlocks) && decoded == old(decoded)
      ensures FirstWithAddress(blocks, address).Some? && address !in old(parsedBlocks) ==>
        var first := blocks[FirstWithAddress(blocks, address).value];
        && parsedBlocks == old(parsedBlocks)[address := decoder(first)]
        && decoded == old(decoded) + [first]
    {
      var i := GetBlockByAddress(address);
      if i.None? {
        r := ParseFileBlock(None);
      } else {
        r := ParseFileBlock(Some(blocks[i.value]));
      }
    }

    // ------------------------------------------------------------ lookups

    /** `getNumberOfTypes`: how many blocks have a structure whose type has the given name. */
    method GetNumberOfTypes(name: Bytes) returns (count: nat)
      requires Valid()
      ensures count == CountOfType(blocks, catalog, name)
    {
      count := 0;
      var i := 0;
      while i < |blocks|
        invariant 0 <= i <= |blocks|
        invariant count == CountOfType(blocks[..i], catalog, name)
      {
        assert blocks[..i + 1][..i] == blocks[..i];
        if TypeNameOf(blocks[i], catalog) == name {
          count := count + 1;
        }
        i := i + 1;
      }
      TakeAll(blocks, |blocks|);
    }

    /** `getBlocksByType(name)`: the positions of the blocks of that type, in block order. */
    method GetBlocksByType(name: Bytes) returns (ret: seq<nat>)
      requires Valid()
      ensures ret == BlocksOfType(blocks, catalog, name)
    {
      ret := [];
      var i := 0;
      while i < |blocks|
        invariant 0 <= i <= |blocks|
        invariant ret == BlocksOfType(blocks[..i], catalog, name)
      {
        assert blocks[..i + 1][..i] == blocks[..i];
        if TypeNameOf(blocks[i], catalog) == name {
          ret := ret + [i];
        }
        i := i + 1;
      }
      TakeAll(blocks, |blocks|);
    }

    /**
     * `getBlocksByType(name, pos)`: the `pos`-th block of that type, or
     * nothing when there are no more than `pos` of them.
     */
    method GetBlocksByTypeAt(name: Bytes, pos: nat) returns (r: Option<nat>)
      requires Valid()
      ensures r.None? <==> CountOfType(blocks, catalog, name) <= pos
      ensures r.Some? ==> pos < |BlocksOfType(blocks, catalog, name)| && r.value == BlocksOfType(blocks, catalog, name)[pos]
      ensures r.Some? ==> r.value < |blocks| && TypeNameOf(blocks[r.value], catalog) == name
    {
      var maxNum := GetNumberOfTypes(name);
      if maxNum <= pos {
        return None;
      }
      var all := GetBlocksByType(name);
      CountIsLength(blocks, catalog, name);
      r := Some(all[pos]);
    }

    /** `doesAddressExist`: whether some block has the given address. */
    method DoesAddressExist(address: nat) returns (found: bool)
      ensures found <==> exists i :: 0 <= i < |blocks| && blocks[i].address == address
      ensures found <==> FirstWithAddress(blocks, address).Some?
    {
      var i := 0;
      while i < |blocks|
        invariant 0 <= i <= |blocks|
        invariant forall j :: 0 <= j < i ==> blocks[j].address != address
      {
        if blocks[i].address == address {
          return true;
        }
        i := i + 1;
      }
      return false;
    }

    /** `getBlockByAddress`: the position of the first block with the given address, if any. */
    method GetBlockByAddress(address: nat) returns (r: Option<nat>)
      ensures r == FirstWithAddress(blocks, address)
    {
      var i := 0;
      while i < |blocks|
        invariant 0 <= i <= |blocks|
        invariant forall j :: 0 <= j < i ==> blocks[j].address != address
      {
        if blocks[i].address == address {
          r := Some(i);
          FirstIsUnique(blocks, address, i);
          return;
        }
        i := i + 1;
      }
      r := None;
    }
  }
}
