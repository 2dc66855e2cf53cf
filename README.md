# A verified model of the ofxBlender `.blend` reader and scene registry

This project models two parts of the ofxBlender add-on in Dafny.

The first part is `File`, the reader for Blender's `.blend` files.
- **File header.** It reads the 12-byte header: the `BLENDER` magic, a pointer-size marker (`-` for 8 bytes, `_` for 4), an endianness marker and a 3-byte version.
- **Block scan.** It walks the file block by block. Each block header holds a 4-byte code, a size, the address the block had in Blender's memory, a structure index and a count. The scan skips every payload until it reaches the catalog block (`DNA1`, or `SDNA`).
- **SDNA catalog.** It reads the four sections of the type catalog: NAME, TYPE, TLEN and STRC. Each section ends on a 4-byte boundary. Type sizes of 0 stand for the pointer size. Every structure field gets a byte offset from a running `unsigned int` cursor, `curOffset`.
- **Linking.** It binds every block to the catalog structure its structure index names.
- **Lookups.** It offers queries over the block list: by type name, by position among one type, and by stored address. It also keeps a cache of decoded blocks, keyed by address.

The second part is `Scene`, the registry of a scene's objects.
- Every object is kept once in `objects`. Each mesh, camera and light is also filed into its own list.
- The materials of the meshes are gathered into `materials` without repeats.
- The active camera is always a registered object.

The model is written in the code's own form:
- **Pure functions** (modules `Cursor`, `Sdna` and `Directory`) say what each read yields from a byte sequence and a position. `LoadSpec` gives the whole read of a file.
- **`Blend.BlendFile`** is a class with the reader's fields: the bytes, the position, the pointer size, the version, the blocks, the catalog and the cache. Its methods run the code's loops step by step, and each one is proved to leave the object in the state the pure functions describe.
- **`Scenes.Scene`** is a class whose methods update its lists in place. They keep the invariant `Valid`.

Pointers are modelled as positions or as object identities:
- a block's structure is an index into the catalog;
- a `Block*` that a lookup returns is the block's position in the list;
- objects and materials are Dafny object references, so two of them are equal only when they are the same object.

`load` can run more than once on the same `File` object. Each run appends to the blocks and the catalog that are already there. As the code does, the TLEN loop then sets the size of type `i` counting from the start of the whole table, not from the first type of the new file. The model keeps this behaviour. `Sdna.ReloadPatchesFromStart` states it. The model's lookups after a second load are defined, while the program's are not; see `Blend.BlendFile.Load` under "## Left out".

## Model

| member | source | states |
|---|---|---|
| Cursor.AlignUp | src/File.cpp:15-20 | `align` moves the position to the smallest multiple of 4 that is not below it; a position already aligned stays put |
| Cursor.StripNul | src/File.cpp:65-71 | the cleaned code has no NUL byte and holds exactly the non-NUL bytes of the code; a code without NUL is left unchanged; a single byte is kept unless it is NUL |
| Cursor.StripNulAppend | src/File.cpp:65-71 | cleaning works byte by byte: cleaning two pieces joined gives the two cleaned pieces joined, so the kept bytes stay in their order |
| Cursor.StripNulTrailing | src/File.cpp:65-71 | a code whose NUL bytes all trail its first k bytes cleans to exactly those k bytes, as `"SC\0\0"` cleans to `"SC"` |
| Cursor.NulFrom | src/File.cpp:47-53 | the terminator found is the first NUL at or after the position; when there is none, no byte from there on is NUL |
| Cursor.UIntAt | src/File.cpp:74-77 | `read<T>` succeeds exactly when `width` bytes remain, moves the position by `width`, and yields a value below 256^width |
| Cursor.DecodeEncode | src/File.cpp:74-77 | storing a value in `width` little-endian bytes and reading it back gives the value |
| Cursor.EncodeDecode | src/File.cpp:74-77 | storing the value read from some bytes gives back those bytes |
| Cursor.TerminatedAt | src/File.cpp:47-54 | a NUL-terminated read succeeds exactly when a NUL follows, ends right after the first NUL at or after its start, and its value is `trim` of the bytes before that NUL |
| Cursor.StringAt | src/File.cpp:46-60 | a read of fixed length succeeds exactly when that many bytes remain, and moves the position by exactly that length |
| Cursor.CStringsAt | src/File.cpp:173-175 | `n` strings read back to back give `n` values, and the reads end within the file |
| Cursor.UIntsAt | src/File.cpp:189-193 | `n` integers of `width` bytes read back to back succeed exactly when `n * width` bytes remain, give `n` values, and end `n * width` bytes on |
| Cursor.UIntsBounded | src/File.cpp:189-193 | every integer read fits in its width |
| Sdna.NamesSectionAt | src/File.cpp:167-176 | the NAME section ends aligned, at least 12 bytes plus one per name after its start |
| Sdna.TypesSectionAt | src/File.cpp:178-185 | the TYPE section ends aligned, at least 8 bytes plus one per type name after its start |
| Sdna.LengthsSectionAt | src/File.cpp:187-194 | TLEN yields one size per type and ends at the aligned position after a tag and 2 bytes per type |
| Sdna.RawFieldsAt | src/File.cpp:210-212 | `count` fields take exactly 4 bytes each |
| Sdna.RawStructAt | src/File.cpp:202-212 | a structure takes 4 bytes plus 4 per field, and its type index fits in an `unsigned short` |
| Sdna.StructuresSectionAt | src/File.cpp:196-249 | the STRC section ends aligned, after at least 4 bytes per structure |
| Sdna.CatalogAt | src/File.cpp:167-249 | the catalog block yields one size per type name and ends aligned, at least 32 bytes after its start |
| Sdna.NameAt | src/File.cpp:173-175 | the `i`-th name added is the `i`-th string read, with the declaration derived from it |
| Sdna.TypeAt | src/File.cpp:182-184 | the `i`-th type added is the `i`-th type name read, numbered `i`, with size 0 until TLEN is read |
| Sdna.PatchAt | src/File.cpp:189-193 | after TLEN, type `i` has the `i`-th size read (0 read as the pointer size) when there is one; the other types are untouched |
| Sdna.PatchedSizesNonZero | src/File.cpp:189-193 | with a pointer size of 4 or 8, no type that TLEN sets has size 0, and each has its stored size or the pointer size |
| Sdna.ArrayMultiIsProduct | src/File.cpp:229-237 | when all dimensions are positive or -1, `multi` is the product of the dimensions other than -1, and 0 when there are none |
| Sdna.Wrap32 | src/File.cpp:209-246 | `curOffset` stays below 2^32, and a value already in range is unchanged |
| Sdna.Advance | src/File.cpp:217-246 | one field moves `curOffset` by the pointer size (times its first dimension when that is non-zero) for a pointer, by the type size times `multi` for an array with non-zero `multi`, and by the type size otherwise |
| Sdna.LayoutAt | src/File.cpp:209-247 | field `k` keeps its type and name indices and sits where `curOffset` stands after the fields before it |
| Sdna.LayoutSteps | src/File.cpp:209-247 | the first field is at offset 0, and each next field sits one advance of the previous field further on, modulo 2^32 |
| Sdna.OffsetsAreRunningSums | src/File.cpp:209-247 | when no advance is negative and their total is below 2^32, each offset is the plain sum of the advances before it, and offsets never decrease |
| Sdna.ResolveAt | src/File.cpp:200-248 | the `i`-th structure added is the `i`-th one read, with its own type and its fields laid out |
| Sdna.ResolveKeepsTypes | src/File.cpp:202-204 | every structure added keeps the type index it was read with |
| Sdna.LayoutIgnoresStructures | src/File.cpp:200-247 | the layout of a structure depends only on the names and types of the catalog, not on the structures added before it |
| Sdna.Extend | src/File.cpp:167-249 | a catalog block adds exactly one entry per name, type and structure read, keeps the earlier structures in place, and keeps the catalog consistent |
| Sdna.ReloadPatchesFromStart | src/File.cpp:188-194 | when a catalog block is added to a table that already has types, type i takes the i-th stored size of the new block counting from the table's first type, and the new block's last type keeps size 0 |
| Directory.PointerBytes | src/File.cpp:129-133 | `readPointer` reads 4 bytes when the pointer size is 4 and 8 otherwise |
| Directory.HeaderAt | src/File.cpp:62-86 | a header read ends after its start and within the file, at the payload offset it records, with no structure bound yet |
| Directory.HeaderShape | src/File.cpp:62-86 | a block code has no NUL byte; an ENDB header is 8 bytes with address, index and count 0; any other header is 16 bytes plus one pointer; a header always reads when that many bytes remain |
| Directory.ScanShape | src/File.cpp:152-165 | a successful scan starts at the header at its start, each next header starts where the previous payload ends, headers come in file order, and the catalog block is the last block and the only one |
| Directory.ScanUnique | src/File.cpp:152-165 | every block list of that shape whose payloads fit in the file is exactly what the scan returns |
| Directory.FileHeaderAt | src/File.cpp:94-149 | the file header reads exactly when the file has 12 bytes, and ends at byte 12; the magic matched exactly when `trim` of the first 7 bytes is `BLENDER`; the marker `-` gives pointer size 8, `_` gives 4, and any other marker keeps the previous size; the version is `trim` of bytes 9 to 11 |
| Directory.LoadedBlocks | src/File.cpp:88-165 | a loaded file holds one or more blocks read from byte 12, and the catalog block is the last of them |
| Directory.BlocksOfType | src/File.cpp:288-295 | the positions are valid and ascending, each block there has the type name, and every block with the type name is listed |
| Directory.CountIsLength | src/File.cpp:279-304 | `getNumberOfTypes` equals the length of `getBlocksByType` for every name |
| Directory.FirstWithAddress | src/File.cpp:315-323 | the result is a block with the address and no earlier block has it; nothing is found exactly when no block has it |
| Blend.CleanCode | src/File.cpp:65-71 | the cleaning loop yields the code without its NUL bytes |
| Blend.BytesToNul | src/File.cpp:47-53 | the reading loop stops at the first NUL and returns the bytes before it |
| Blend.ArrayMultiOf | src/File.cpp:229-237 | the `multi` loop computes the `multi` of the dimensions |
| Blend.StepOffset | src/File.cpp:217-246 | `curOffset` moves by the field's advance, wrapping as an `unsigned int` |
| Blend.PlaceField | src/File.cpp:213-246 | one turn of the fields loop appends the next field of the layout and moves `curOffset` past it |
| Blend.CacheAdd | src/File.cpp:269-271 | storing the decoding of a block at an address not yet cached keeps one entry per decoded address, each the decoding of its block |
| Blend.BlendFile.constructor | src/File.cpp:27-31 | a new file is empty, with a valid, empty catalog and cache |
| Blend.BlendFile.Align | src/File.cpp:15-20 | the position moves to the next multiple of 4 |
| Blend.BlendFile.ReadUInt | src/File.cpp:74-77 | the read yields the value `UIntAt` gives and moves the position past it |
| Blend.BlendFile.ReadString | src/File.cpp:46-60 | the read yields what `StringAt` gives and moves the position past it |
| Blend.BlendFile.ReadHeader | src/File.cpp:62-86 | the block header read is `HeaderAt` at the old position, and the position ends at its payload |
| Blend.BlendFile.ReadFileHeader | src/File.cpp:94-149 | the magic check, the pointer size and the version are those of `FileHeaderAt`, and the position is 12 |
| Blend.BlendFile.ScanBlocks | src/File.cpp:152-165 | the scan loop appends exactly the blocks of `ScanWith` and stops right after the catalog block's header |
| Blend.BlendFile.ReadNames | src/File.cpp:168-176 | NAME appends one name per string, each with its declaration |
| Blend.BlendFile.ReadTypes | src/File.cpp:179-185 | TYPE appends the types numbered in order and returns their count |
| Blend.BlendFile.ReadTypeLengths | src/File.cpp:188-194 | TLEN sets the sizes as `PatchSizes` says |
| Blend.BlendFile.ReadStructures | src/File.cpp:197-249 | STRC appends the structures read, each with its fields laid out |
| Blend.BlendFile.ReadStructure | src/File.cpp:202-247 | one structure is read with its type index and the layout of its fields |
| Blend.BlendFile.ReadFieldList | src/File.cpp:209-247 | the fields loop yields the layout of the fields read |
| Blend.BlendFile.ReadContainer | src/File.cpp:94-165 | after the header and the scan, the fields match `FileHeaderAt` and the blocks read are appended |
| Blend.BlendFile.ReadCatalog | src/File.cpp:167-249 | the four catalog sections extend the catalog as `Extend` says |
| Blend.BlendFile.LinkBlocks | src/File.cpp:252-256 | every block, old and new, is bound to the structure its index names, and the file is valid |
| Blend.BlendFile.ReadFile | src/File.cpp:88-249 | after the reads, the fields hold the parse of the bytes and the blocks read are appended |
| Blend.BlendFile.Load | src/File.cpp:88-261 | `load` leaves the object valid, with the fields `LoadSpec` gives, and every block bound to its structure |
| Blend.BlendFile.ParseFileBlock | src/File.cpp:265-273 | no block gives no result; otherwise the result is the cached decoding of a block with that address; the decoder runs only when the address was not cached yet |
| Blend.BlendFile.ParseFileBlockAt | src/File.cpp:275-277 | an address with no block gives no result and changes nothing; an address already cached changes nothing; otherwise the first block with that address is decoded and cached, the other cache entries stay, and the result is the cached decoding |
| Blend.BlendFile.GetNumberOfTypes | src/File.cpp:279-286 | the count is the number of blocks whose type has the name |
| Blend.BlendFile.GetBlocksByType | src/File.cpp:288-295 | the result is the positions of the blocks whose type has the name, in order |
| Blend.BlendFile.GetBlocksByTypeAt | src/File.cpp:297-304 | nothing exactly when at most `pos` blocks have the type; otherwise the `pos`-th of them, which has that type |
| Blend.BlendFile.DoesAddressExist | src/File.cpp:306-313 | true exactly when some block has the address |
| Blend.BlendFile.GetBlockByAddress | src/File.cpp:315-323 | the first block with the address, or nothing when none has it |
| Scenes.DistinctOnce | src/Scene.cpp:171-176 | in the duplicate-free object list, an object that occurs occurs exactly once |
| Scenes.OfKindMembers | src/Scene.cpp:179-197 | an object is in the list of a type exactly when it is registered and has that type |
| Scenes.MergeShape | src/Scene.cpp:183-186 | merging a mesh's materials keeps the listed ones in place and in order, adds exactly the non-null materials of the mesh, and repeats none |
| Scenes.MaterialsOfShape | src/Scene.cpp:179-188 | the gathered materials repeat none and are exactly the materials that some mesh holds |
| Scenes.RegistryAdd | src/Scene.cpp:171-197 | registering a new object and filing it under its type keeps the lists in agreement |
| Scenes.FirstNamed | src/Scene.cpp:205-212 | the result has the name and comes before every other object with that name; null exactly when no object has the name |
| Scenes.GetFromVecByName | src/Scene.cpp:205-212 | the scan returns the first object with the name, or null |
| Scenes.GetFromVecByIndex | src/Scene.cpp:214-220 | non-null exactly when the index is in range, and then the object at that index |
| Scenes.Scene.constructor | src/Scene.cpp:7-15 | a new scene is named "unnamed scene", has no active camera and empty lists |
| Scenes.Scene.HasObject | src/Scene.cpp:222-224 | true exactly when the object is registered |
| Scenes.Scene.MergeMaterials | src/Scene.cpp:183-186 | the materials loop merges the mesh's materials as `Merge` says |
| Scenes.Scene.AddObject | src/Scene.cpp:171-202 | a registered object changes nothing; a new one is appended to `objects` and to its type's list only, a mesh's materials are merged in, the object is linked to the scene, and the registry stays valid |
| Scenes.Scene.GetObjectByName | src/Scene.cpp:226-228 | the first registered object with the name, or null |
| Scenes.Scene.GetObjectByIndex | src/Scene.cpp:230-232 | the object at the index, or null past the end |
| Scenes.Scene.GetMeshByName | src/Scene.cpp:234-236 | the first mesh with the name, or null; a result is a registered mesh |
| Scenes.Scene.GetMeshByIndex | src/Scene.cpp:238-240 | the mesh at the index among the meshes, or null past the end |
| Scenes.Scene.GetCameraByName | src/Scene.cpp:246-248 | the first camera with the name, or null; a result is a registered camera |
| Scenes.Scene.GetCameraByIndex | src/Scene.cpp:250-252 | the camera at the index among the cameras, or null past the end |
| Scenes.Scene.GetLightByName | src/Scene.cpp:271-273 | the first light with the name, or null; a result is a registered light |
| Scenes.Scene.GetLightByIndex | src/Scene.cpp:275-277 | the light at the index among the lights, or null past the end |
| Scenes.Scene.SetActiveCamera | src/Scene.cpp:254-257 | the camera is registered as `addObject` does it, its scene link becomes this scene when it is new and stays otherwise, and it becomes the active camera |

## Left out

- Gzip-compressed files (src/File.cpp:97-118) are not modelled. The model starts from the decompressed bytes and records whether the magic matched.
- Opening and closing the stream, and resolving the path, are not modelled. The file's bytes are a parameter.
- Integers are read in little-endian order. The source reads them in the host's byte order and ignores the endianness marker.
- `trim`, the string helper every read goes through, is a parameter. `File.h` is not part of this model.
- `DNAName`, which parses a declared name into its pointer and array facts, is a parameter (`declare`) that yields a `Declaration`. It is assumed to yield well-formed declarations.
- `Parser::parseFileBlock`, the block decoder, is a parameter (`decoder`). `Parser::init` is not modelled.
- `multi` is a `float` in the source. The model computes it as an integer, so float rounding of very large products is not captured.
- Blend.BlendFile.Load: the source never checks for a read past the end of the stream. The model requires the whole read to succeed (`LoadSpec` yields a value), and it requires every type, name and structure index to be in range. The source does not check these either, so an out-of-range index there is undefined behaviour.
- Blend.BlendFile.Load: after a second load, the model's lookups are an idealisation. The source stores raw pointers into the name and type tables in each structure and field (src/File.cpp:203-204, 213-215). A second load appends to those tables (src/File.cpp:174, 183), which can move them and leave the first file's pointers dangling. Blocks are also re-linked by their own file's structure index (src/File.cpp:254) to structures of the first file. `getNumberOfTypes` and `getBlocksByType` then read freed memory. The model stores indices, so its answers stay defined.
- Blend.BlendFile.GetBlocksByTypeAt, Blend.BlendFile.GetBlockByAddress: they return the block's position instead of a pointer to it.
- `pointerSize` is left uninitialised by the C++ constructor. The model starts it at 0.
- Loop counters are not modelled as `unsigned int`: a count read from 4 bytes never reaches 2^32.
- Log messages (`ofLogWarning`, `ofLogVerbose`, `ofLogNotice`) are not modelled.
- These `File` members are outside the modelled core: the scene and object accessors (src/File.cpp:326-354) and `exportStructure`.
- These `Scene` members are not modelled, being rendering or state outside the registry: rendering (`customDraw`), `update`, the debug camera, the viewport and lighting flags, and `timeline.add`.
- `disableCamera` passes NULL into `addObject`, which dereferences it. Objects are non-null in the model.
- `getMeshes` and `getActiveCamera` only return a field, so the model has no members for them.
- An object's name, type and material slots are fixed once decoded (`const` fields). Mesh::pushMaterial (src/Mesh.h:43) is not modelled. `Scene.Valid`'s clause `materials == MaterialsOf(meshes)` relies on this. In the source, the scene's material list is a snapshot taken when each mesh was added, and it does not follow later changes to a mesh's slots.
- Directory.ScanFrom: a file with no `DNA1` or `SDNA` block makes the source's scan loop (src/File.cpp:157-165) read on past the end of the stream. There, `readChar` leaves its buffer unset and `tellg` gives -1, so the loop keeps adding blocks. The model ends such a scan as `Truncated`, and `ScanBlocks` and `Load` require a scan that reaches the catalog block.
- Scenes.Scene.AddObject: "the object occurs exactly once" is not stated in its own contract. It follows from `Valid` (no object repeats) and `Scenes.DistinctOnce`.
