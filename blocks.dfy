/**
 * The container level of a `.blend` file: the 12-byte file header, the block
 * headers, the scan that lists blocks up to the catalog block, and the
 * lookups over the resulting block list, as pure functions.
 */
module Directory {
  import opened Cursor
  import opened Sdna

  /**
   * One block header: its code with NUL bytes removed, the payload size, the
   * address the block had in the producing process, the index of its
   * structure in the catalog, its element count, the stream position of its
   * payload, and (once linked) the structure it is bound to.
   */
  datatype Block = Block(code: Bytes, size: nat, address: nat, sdnaIndex: nat, count: nat, offset: nat, structure: Option<nat>)

  const ENDB: Bytes := [0x45, 0x4E, 0x44, 0x42]              // "ENDB"
  const DNA1: Bytes := [0x44, 0x4E, 0x41, 0x31]              // "DNA1"
  const SDNA: Bytes := [0x53, 0x44, 0x4E, 0x41]              // "SDNA"
  const BLENDER: Bytes := [0x42, 0x4C, 0x45, 0x4E, 0x44, 0x45, 0x52]  // "BLENDER"
  const POINTER8: byte := 0x2D                               // '-'
  const POINTER4: byte := 0x5F                               // '_'

  /** The codes that end the block scan. */
  predicate IsCatalogCode(code: Bytes)
  {
    code == DNA1 || code == SDNA
  }

  /** How many bytes `readPointer` reads: 4 when the pointer size is 4, 8 otherwise. */
  function PointerBytes(pointerSize: nat): (w: nat)
    ensures w == 4 || w == 8
    ensures pointerSize == 4 || pointerSize == 8 ==> w == pointerSize
  {
    if pointerSize == 4 then 4 else 8
  }

  // ---------------------------------------------------------------- block headers

  /**
   * `readHeader` at position `p`: a 4-byte code, trimmed and cleaned of NUL
   * bytes, and a 4-byte size; for any code but ENDB also a pointer-sized
   * address, a 4-byte structure index and a 4-byte count. The payload offset
   * is the position right after the header.
   */
  function HeaderAt(data: Bytes, p: nat, pointerSize: nat, trim: Bytes -> Bytes): (r: Parsed<Block>)
    ensures r.Parsed? ==> p < r.next == r.value.offset <= |data| && r.value.structure.None?
  {
    match StringAt(data, p, 4, trim)
    case Truncated => Truncated
    case Parsed(raw, p1) =>
      var code := StripNul(raw);
      match UIntAt(data, p1, 4)
      case Truncated => Truncated
      case Parsed(size, p2) =>
        if code == ENDB then Parsed(Block(code, size, 0, 0, 0, p2, None), p2)
        else
          match UIntAt(data, p2, PointerBytes(pointerSize))
          case Truncated => Truncated
          case Parsed(address, p3) =>
            match UIntAt(data, p3, 4)
            case Truncated => Truncated
            case Parsed(sdnaIndex, p4) =>
              match UIntAt(data, p4, 4)
              case Truncated => Truncated
              case Parsed(count, p5) => Parsed(Block(code, size, address, sdnaIndex, count, p5, None), p5)
  }

  /**
   * A header's code has no NUL byte; an ENDB header is 8 bytes and carries no
   * address, index or count; any other header is 16 bytes plus one pointer;
   * and a header always reads when that many bytes remain.
   */
  lemma HeaderShape(data: Bytes, p: nat, pointerSize: nat, trim: Bytes -> Bytes)
    ensures var r := HeaderAt(data, p, pointerSize, trim);
      && (r.Parsed? ==> forall i :: 0 <= i < |r.value.code| ==> r.value.code[i] != 0)
      && (r.Parsed? && r.value.code != ENDB ==> r.value.offset == p + 16 + PointerBytes(pointerSize))
      && (r.Parsed? && r.value.code == ENDB ==>
            r.value.offset == p + 8 && r.value.address == 0 && r.value.sdnaIndex == 0 && r.value.count == 0)
      && (p + 16 + PointerBytes(pointerSize) <= |data| ==> r.Parsed?)
  {
  }

  /** `HeaderAt` over one file, as a function of the position. */
  function Headers(data: Bytes, pointerSize: nat, trim: Bytes -> Bytes): (header: nat -> Parsed<Block>)
    ensures Advancing(header, |data|)
  {
    (q: nat) => HeaderAt(data, q, pointerSize, trim)
  }

  /**
   * `header` reads the headers of `data`: it agrees with `HeaderAt` at every
   * position. The agreement is only consulted where `HeaderAt` itself
   * appears, so a proof about a scan by `header` does not unfold headers.
   */
  ghost predicate ReadsHeaders(header: nat -> Parsed<Block>, data: Bytes, pointerSize: nat, trim: Bytes -> Bytes)
  {
    forall q: nat {:trigger HeaderAt(data, q, pointerSize, trim)} :: header(q) == HeaderAt(data, q, pointerSize, trim)
  }

  /** `Headers` reads the headers of its file. */
  lemma HeadersRead(data: Bytes, pointerSize: nat, trim: Bytes -> Bytes)
    ensures ReadsHeaders(Headers(data, pointerSize, trim), data, pointerSize, trim)
  {
  }

  /**
   * A header reader that always moves forward and never past `limit`: what
   * `HeaderAt` is for a file of `limit` bytes. The scan below is stated for
   * any such reader, so that its proofs need nothing else about headers.
   */
  ghost predicate Advancing(header: nat -> Parsed<Block>, limit: nat)
  {
    forall q: nat :: header(q).Parsed? ==> header(q).next == header(q).value.offset && q < header(q).next <= limit
  }

  /**
   * The block scan from position `p`: read a header; if its code is DNA1 or
   * SDNA, keep it and stop; otherwise skip its payload and go on from there.
   */
  function ScanWith(header: nat -> Parsed<Block>, limit: nat, p: nat): Parsed<seq<Block>>
    requires Advancing(header, limit)
    decreases limit - p
  {
    match header(p)
    case Truncated => Truncated
    case Parsed(b, _) =>
      if IsCatalogCode(b.code) then Parsed([b], b.offset)
      else if b.offset + b.size > limit then Truncated
      else Cons(b, ScanWith(header, limit, b.offset + b.size))
  }

  /** The scan of a file's bytes from `p`. */
  function ScanFrom(data: Bytes, p: nat, pointerSize: nat, trim: Bytes -> Bytes): Parsed<seq<Block>>
  {
    ScanWith(Headers(data, pointerSize, trim), |data|, p)
  }

  /**
   * A list of blocks is what the scan reads from `p`: the first header is at
   * `p`, each next header starts where the previous payload ends, the last
   * block has a catalog code and no other block does.
   */
  ghost predicate IsScan(header: nat -> Parsed<Block>, p: nat, bs: seq<Block>)
  {
    && |bs| >= 1
    && header(p) == Parsed(bs[0], bs[0].offset)
    && IsCatalogCode(bs[|bs| - 1].code)
    && (forall i :: 0 <= i < |bs| - 1 ==> !IsCatalogCode(bs[i].code))
    && (forall i :: 0 <= i < |bs| - 1 ==>
          header(bs[i].offset + bs[i].size) == Parsed(bs[i + 1], bs[i + 1].offset))
  }

  /** One step of a successful scan: the first header, and the rest of the scan after its payload. */
  lemma ScanStep(header: nat -> Parsed<Block>, limit: nat, p: nat) returns (b: Block)
    requires Advancing(header, limit)
    requires ScanWith(header, limit, p).Parsed?
    ensures header(p) == Parsed(b, b.offset)
    ensures IsCatalogCode(b.code) ==> ScanWith(header, limit, p) == Parsed([b], b.offset)
    ensures !IsCatalogCode(b.code) ==>
      && ScanWith(header, limit, b.offset + b.size).Parsed?
      && ScanWith(header, limit, p).value == [b] + ScanWith(header, limit, b.offset + b.size).value
      && ScanWith(header, limit, p).next == ScanWith(header, limit, b.offset + b.size).next
  {
    b := header(p).value;
  }

  /**
   * `ScanStep` for the suffixes of one scan: when the scan from `q` returns
   * `all[k..]`, the header at `q` is `all[k]`, and either it is the catalog
   * block and the last one, or the scan after its payload returns `all[k + 1..]`.
   */
  lemma ScanAt(header: nat -> Parsed<Block>, limit: nat, q: nat, all: seq<Block>, k: nat, end: nat)
    requires Advancing(header, limit)
    requires k < |all| && ScanWith(header, limit, q) == Parsed(all[k..], end)
    ensures header(q) == Parsed(all[k], all[k].offset)
    ensures IsCatalogCode(all[k].code) ==> k == |all| - 1 && end == all[k].offset
    ensures !IsCatalogCode(all[k].code) ==>
      k + 1 < |all| && ScanWith(header, limit, all[k].offset + all[k].size) == Parsed(all[k + 1..], end)
  {
    var b := ScanStep(header, limit, q);
    assert all[k..][0] == all[k];
    if !IsCatalogCode(b.code) {
      var r := ScanWith(header, limit, b.offset + b.size);
      assert [b] + r.value == all[k..];
      assert r.value == ([b] + r.value)[1..] == all[k..][1..] == all[k + 1..];
    }
  }

  /** A successful scan starts with the header at `p` and ends with a catalog block, right after its header. */
  lemma {:induction false} ScanEnds(header: nat -> Parsed<Block>, limit: nat, p: nat)
    requires Advancing(header, limit)
    requires ScanWith(header, limit, p).Parsed?
    ensures var r := ScanWith(header, limit, p);
      && |r.value| >= 1 && header(p) == Parsed(r.value[0], r.value[0].offset)
      && IsCatalogCode(r.value[|r.value| - 1].code) && r.next == r.value[|r.value| - 1].offset
    decreases limit - p
  {
    var b := ScanStep(header, limit, p);
    if !IsCatalogCode(b.code) {
      ScanEnds(header, limit, b.offset + b.size);
    }
  }

  /** Block `i` of a successful scan is not the last: it is no catalog block, and block `i + 1` is the header after its payload. */
  lemma {:induction false} ScanLink(header: nat -> Parsed<Block>, limit: nat, p: nat, i: nat)
    requires Advancing(header, limit)
    requires ScanWith(header, limit, p).Parsed?
    requires i < |ScanWith(header, limit, p).value| - 1
    ensures var bs := ScanWith(header, limit, p).value;
      && !IsCatalogCode(bs[i].code)
      && header(bs[i].offset + bs[i].size) == Parsed(bs[i + 1], bs[i + 1].offset)
      && bs[i].offset < bs[i + 1].offset
    decreases i
  {
    var bs := ScanWith(header, limit, p).value;
    var b := ScanStep(header, limit, p);
    var p' := b.offset + b.size;
    var rest := ScanWith(header, limit, p').value;
    assert bs[i] == ([b] + rest)[i] && bs[i + 1] == rest[i];
    if i == 0 {
      var b' := ScanStep(header, limit, p');
      assert rest[0] == b';
    } else {
      ScanLink(header, limit, p', i - 1);
      assert bs[i] == rest[i - 1];
    }
  }

  /** What a successful scan returns has the shape above, in file order, and ends right after the catalog header. */
  lemma ScanShape(header: nat -> Parsed<Block>, limit: nat, p: nat)
    requires Advancing(header, limit)
    requires ScanWith(header, limit, p).Parsed?
    ensures IsScan(header, p, ScanWith(header, limit, p).value)
    ensures var bs := ScanWith(header, limit, p).value;
      && ScanWith(header, limit, p).next == bs[|bs| - 1].offset
      && (forall i :: 0 <= i < |bs| - 1 ==> bs[i].offset < bs[i + 1].offset)
  {
    ScanEnds(header, limit, p);
    var bs := ScanWith(header, limit, p).value;
    forall i | 0 <= i < |bs| - 1
      ensures !IsCatalogCode(bs[i].code)
      ensures header(bs[i].offset + bs[i].size) == Parsed(bs[i + 1], bs[i + 1].offset)
      ensures bs[i].offset < bs[i + 1].offset
    {
      ScanLink(header, limit, p, i);
    }
  }

  /** Dropping the first block of such a list leaves a list of the same shape, read from after the first payload. */
  lemma ScanTail(header: nat -> Parsed<Block>, p: nat, bs: seq<Block>)
    requires IsScan(header, p, bs) && |bs| > 1
    ensures IsScan(header, bs[0].offset + bs[0].size, bs[1..])
  {
    var rest := bs[1..];
    assert header(bs[0].offset + bs[0].size) == Parsed(rest[0], rest[0].offset);
    forall i | 0 <= i < |rest| - 1
      ensures !IsCatalogCode(rest[i].code)
      ensures header(rest[i].offset + rest[i].size) == Parsed(rest[i + 1], rest[i + 1].offset)
    {
      assert rest[i] == bs[i + 1] && rest[i + 1] == bs[i + 2];
    }
  }

  /** Conversely, a list of that shape whose payloads fit is exactly what the scan returns. */
  lemma {:induction false} ScanUnique(header: nat -> Parsed<Block>, limit: nat, p: nat, bs: seq<Block>)
    requires Advancing(header, limit)
    requires IsScan(header, p, bs)
    requires forall i :: 0 <= i < |bs| - 1 ==> bs[i].offset + bs[i].size <= limit
    ensures ScanWith(header, limit, p) == Parsed(bs, bs[|bs| - 1].offset)
    decreases |bs|
  {
    if |bs| > 1 {
      var rest := bs[1..];
      assert !IsCatalogCode(bs[0].code) && bs[0].offset + bs[0].size <= limit;
      ScanTail(header, p, bs);
      assert forall i :: 0 <= i < |rest| - 1 ==> rest[i] == bs[i + 1];
      ScanUnique(header, limit, bs[0].offset + bs[0].size, rest);
      assert bs == [bs[0]] + rest;
    } else {
      assert bs == [bs[0]];
    }
  }

  // ---------------------------------------------------------------- file header

  /** What the 12-byte file header sets: whether the magic matched, the pointer size and the version string. */
  datatype FileHeader = FileHeader(magicOk: bool, pointerSize: nat, version: Bytes)

  /**
   * The file header from position 0: `BLENDER`, a pointer-size marker (`-` for
   * 8, `_` for 4, anything else leaves the size as it was), an endianness
   * marker that is read and not used, and a 3-byte version.
   */
  function FileHeaderAt(data: Bytes, oldPointerSize: nat, trim: Bytes -> Bytes): (r: Parsed<FileHeader>)
    ensures r.Parsed? <==> 12 <= |data|
    ensures r.Parsed? ==> r.next == 12
    ensures r.Parsed? ==> (r.value.magicOk <==> trim(data[..7]) == BLENDER)
    ensures r.Parsed? && trim(data[7..8]) == [POINTER8] ==> r.value.pointerSize == 8
    ensures r.Parsed? && trim(data[7..8]) == [POINTER4] ==> r.value.pointerSize == 4
    ensures r.Parsed? && trim(data[7..8]) != [POINTER8] && trim(data[7..8]) != [POINTER4] ==> r.value.pointerSize == oldPointerSize
    ensures r.Parsed? ==> r.value.version == trim(data[9..12])
  {
    match StringAt(data, 0, 7, trim)
    case Truncated => Truncated
    case Parsed(info, p1) =>
      match StringAt(data, p1, 1, trim)
      case Truncated => Truncated
      case Parsed(marker, p2) =>
        var pointerSize := if marker == [POINTER8] then 8 else if marker == [POINTER4] then 4 else oldPointerSize;
        match StringAt(data, p2, 1, trim)
        case Truncated => Truncated
        case Parsed(_, p3) =>
          match StringAt(data, p3, 3, trim)
          case Truncated => Truncated
          case Parsed(version, p4) => Parsed(FileHeader(info == BLENDER, pointerSize, version), p4)
  }

  // ---------------------------------------------------------------- the whole load

  /** Everything `load` reads from a decompressed file: header, block list and catalog block contents. */
  datatype RawFile = RawFile(header: FileHeader, blocks: seq<Block>, catalog: RawCatalog)

  /**
   * The reads of `load` in order: the file header, the block scan from
   * position 12, then the catalog sections right after the catalog block's
   * header.
   */
  function LoadSpec(data: Bytes, oldPointerSize: nat, trim: Bytes -> Bytes): (r: Parsed<RawFile>)
  {
    match FileHeaderAt(data, oldPointerSize, trim)
    case Truncated => Truncated
    case Parsed(h, p1) =>
      match ScanFrom(data, p1, h.pointerSize, trim)
      case Truncated => Truncated
      case Parsed(bs, p2) =>
        match CatalogAt(data, p2, trim)
        case Truncated => Truncated
        case Parsed(cat, p3) => Parsed(RawFile(h, bs, cat), p3)
  }

  /** The three parts of a load, each read where the previous one ends. */
  lemma LoadParts(data: Bytes, oldPointerSize: nat, trim: Bytes -> Bytes) returns (p2: nat)
    requires LoadSpec(data, oldPointerSize, trim).Parsed?
    ensures var f := LoadSpec(data, oldPointerSize, trim);
      && FileHeaderAt(data, oldPointerSize, trim) == Parsed(f.value.header, 12)
      && ScanFrom(data, 12, f.value.header.pointerSize, trim) == Parsed(f.value.blocks, p2)
      && CatalogAt(data, p2, trim) == Parsed(f.value.catalog, f.next)
  {
    var h := FileHeaderAt(data, oldPointerSize, trim).value;
    p2 := ScanFrom(data, 12, h.pointerSize, trim).next;
  }

  /** A loaded file starts with one or more blocks and its catalog block is the last of them. */
  lemma LoadedBlocks(data: Bytes, oldPointerSize: nat, trim: Bytes -> Bytes)
    requires LoadSpec(data, oldPointerSize, trim).Parsed?
    ensures var f := LoadSpec(data, oldPointerSize, trim).value;
      IsScan(Headers(data, f.header.pointerSize, trim), 12, f.blocks)
  {
    var h := FileHeaderAt(data, oldPointerSize, trim).value;
    ScanShape(Headers(data, h.pointerSize, trim), |data|, 12);
  }

  // ---------------------------------------------------------------- linking

  /** Block `i` bound to the structure its structure index names. */
  function LinkAll(bs: seq<Block>): (r: seq<Block>)
    ensures |r| == |bs|
    ensures forall i :: 0 <= i < |bs| ==> r[i] == bs[i].(structure := Some(bs[i].sdnaIndex))
  {
    seq(|bs|, i requires 0 <= i < |bs| => bs[i].(structure := Some(bs[i].sdnaIndex)))
  }

  /** Every block is bound to a structure of the catalog. */
  predicate Linked(bs: seq<Block>, c: Catalog)
  {
    forall i :: 0 <= i < |bs| ==> bs[i].structure.Some? && bs[i].structure.value < |c.structures|
  }

  // ---------------------------------------------------------------- lookups

  /** The name of the type of the structure a linked block is bound to. */
  function TypeNameOf(b: Block, c: Catalog): Bytes
    requires ValidCatalog(c) && b.structure.Some? && b.structure.value < |c.structures|
  {
    c.types[c.structures[b.structure.value].typeIndex].name
  }

  /** How many blocks have the given type name. */
  function CountOfType(bs: seq<Block>, c: Catalog, name: Bytes): nat
    requires ValidCatalog(c) && Linked(bs, c)
  {
    if bs == [] then 0
    else
      var k := |bs| - 1;
      CountOfType(bs[..k], c, name) + (if TypeNameOf(bs[k], c) == name then 1 else 0)
  }

  /** The positions of the blocks with the given type name, in block order, and no others. */
  function BlocksOfType(bs: seq<Block>, c: Catalog, name: Bytes): (r: seq<nat>)
    requires ValidCatalog(c) && Linked(bs, c)
    ensures forall k :: 0 <= k < |r| ==> r[k] < |bs| && TypeNameOf(bs[r[k]], c) == name
    ensures forall j, k :: 0 <= j < k < |r| ==> r[j] < r[k]
    ensures forall i :: 0 <= i < |bs| && TypeNameOf(bs[i], c) == name ==> i in r
  {
    if bs == [] then []
    else
      var k := |bs| - 1;
      BlocksOfType(bs[..k], c, name) + (if TypeNameOf(bs[k], c) == name then [k] else [])
  }

  /** The count and the list agree: `getNumberOfTypes` is the length of `getBlocksByType`. */
  lemma {:induction false} CountIsLength(bs: seq<Block>, c: Catalog, name: Bytes)
    requires ValidCatalog(c) && Linked(bs, c)
    ensures CountOfType(bs, c, name) == |BlocksOfType(bs, c, name)|
  {
    if bs != [] {
      CountIsLength(bs[..|bs| - 1], c, name);
    }
  }

  /** The first block with the given address, if any. */
  function FirstWithAddress(bs: seq<Block>, address: nat): (r: Option<nat>)
    ensures r.Some? ==> r.value < |bs| && bs[r.value].address == address
    ensures r.Some? ==> forall j :: 0 <= j < r.value ==> bs[j].address != address
    ensures r.None? <==> forall j :: 0 <= j < |bs| ==> bs[j].address != address
  {
    if bs == [] then None
    else if bs[0].address == address then Some(0)
    else
      match FirstWithAddress(bs[1..], address)
      case None => None
      case Some(i) => Some(i + 1)
  }

  /** The first block with an address is the one no earlier block shares it with. */
  lemma FirstIsUnique(bs: seq<Block>, address: nat, i: nat)
    requires i < |bs| && bs[i].address == address
    requires forall j :: 0 <= j < i ==> bs[j].address != address
    ensures FirstWithAddress(bs, address) == Some(i)
  {
  }
}
