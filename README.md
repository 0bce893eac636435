# Sphinx core header: rows, lookup tables and match state

A Dafny model of the inline logic in `src/sphinx.h` of the Sphinx full-text
search engine, with its properties proved:

- **Bit-packed attribute rows** (`Rows`). A document's attributes live in a
  row of 32-bit row items. An attribute is addressed either by a row item
  index or by a bit offset and bit count. `sphSetRowAttr` masks a field into
  one row item in place. `CSphDocInfo` owns a document id and its row buffer,
  and resets, copies, reads and writes it.
- **Lowercaser lookup** (`Lowercaser`). `ToLower` reads a sparse two-level
  table of 0x300 chunks of 256 entries. The remap ranges the table is built
  from are ordered by their start code.
- **Synonym order and word lengths** (`Tokenizer`). Synonyms are ordered by
  `strcmp` of their map-from strings. The tokenizer clamps its minimum word
  length to at least 1.
- **Matches and comparator state** (`Matches`). Matches compare equal by
  document id, and `Swap` exchanges every field. The sorter's comparator
  state starts with -1 sentinels. It reports whether any attribute needs
  bit-field access, and reads attributes by row item or by bit field.
- **Purge predicate** (`Purge`). During a merge, a document is dropped when
  purging is on and its attribute is outside [min, max].

`Words` holds the integer reading of DWORD bit operations. A DWORD is an
integer in [0, 2^32):

- `x >> s` is `x / 2^s`;
- `x & ((1 << n) - 1)` is `x % 2^n`;
- clearing or setting a group of bits subtracts or adds them.

The mask `((1 << cnt) - 1) << shift` is cut at bit 31. Only
`min(cnt, 32 - shift)` of its bits survive (`Rows.MaskWidth`, `Rows.TruncatedMask`).

## Model

| member | source | states |
|---|---|---|
| Rows.Field | src/sphinx.h:456-457 | shifting down and masking `cnt` bits yields a value below 2^cnt |
| Rows.MaskWidth | src/sphinx.h:368 | the mask cut to 32 bits keeps `cnt` bits when the field fits in its item, else exactly the bits from `shift` up to bit 31; never zero |
| Rows.TruncatedMask | src/sphinx.h:368 | `((2^cnt - 1) * 2^shift) mod 2^32`, the mask as stored in a row item, is the run of `MaskWidth(shift, cnt)` one bits starting at bit `shift` |
| Rows.ClearField | src/sphinx.h:369 | `&= ~uMask` zeroes the field and keeps every bit below and above it; the result stays a row item |
| Rows.StoreField | src/sphinx.h:369-370 | clearing a field and or-ing in a value below 2^c keeps the bits below and above, reads back as that value, and stays below 2^32 |
| Rows.ItemWithField | src/sphinx.h:367-370 | the masked store keeps every bit below and above the mask and puts the low bits of the value under it |
| Rows.GetRowAttr | src/sphinx.h:446-457 | a 32-bit field is the whole item; a narrower field is below 2^cnt |
| Rows.RowWithAttr | src/sphinx.h:361-371 | the store keeps the row length and changes no row item but item `off / 32` |
| Rows.SetGetRoundTrip | src/sphinx.h:361-371 | a field inside one item reads back as `v & ((1 << cnt) - 1)`, or all of `v` at 32 bits |
| Rows.FullWidthStore | src/sphinx.h:364-365 | a 32-bit store at an aligned offset puts `v` verbatim in the item, and `GetAttr(off, 32)` returns it |
| Rows.SetRowAttrOnlyMaskedBits | src/sphinx.h:367-370 | every single bit of the row outside [off, off + cnt) reads the same after the store |
| Rows.DisjointFieldUnchanged | src/sphinx.h:361-371 | any field not overlapping the stored one reads the same afterwards, in the same item or another |
| Rows.StraddlingFieldLosesBits | src/sphinx.h:446-471 | for a field the assertions admit that crosses into the next item: the next item is untouched, the field reads back only the low `32 - off % 32` bits, and any value whose low `cnt` bits include a bit at or above bit `32 - off % 32` reads back wrong |
| Rows.SetRowAttr | src/sphinx.h:361-371 | the in-place store leaves the array equal to `RowWithAttr` of its old contents |
| Rows.DocInfo.constructor | src/sphinx.h:382-387 | id 0, no row items, empty buffer |
| Rows.DocInfo.Copy | src/sphinx.h:390-395 | the copy has the source's id, item count and row contents in a buffer of its own |
| Rows.DocInfo.Reset | src/sphinx.h:404-414 | id 0 and `n` items; the buffer and its contents stay when `n` is unchanged, else a new buffer |
| Rows.DocInfo.Assign | src/sphinx.h:417-436 | id, item count and every row item equal the source's; the buffer is reused when the counts match, else new; the source is unchanged |
| Rows.DocInfo.GetAttrItem | src/sphinx.h:438-443 | item `i` is the same as the aligned 32-bit field at bit `32 * i` |
| Rows.DocInfo.GetAttrBits | src/sphinx.h:445-457 | a field below 32 bits is below 2^cnt; a 32-bit field is the whole item |
| Rows.DocInfo.SetAttr | src/sphinx.h:466-472 | only item `off / 32` changes as `sphSetRowAttr` says, and the field then reads back as the kept bits of `v` |
| Lowercaser.DefaultRemapRange | src/sphinx.h:155-159 | start, end and remap start are all -1 |
| Lowercaser.RemapLess | src/sphinx.h:169-172 | a range is never before itself, and ranges with the same start are unordered whatever their ends |
| Lowercaser.RemapLessIsStrictWeakOrder | src/sphinx.h:169-172 | the range order is irreflexive, asymmetric and transitive, and two ranges are unordered exactly when their starts are equal |
| Lowercaser.ToLower | src/sphinx.h:191-200 | codes at or past `MAX_CODE` and codes in an unallocated chunk map to 0 |
| Lowercaser.Dense | src/sphinx.h:203-208 | the flat layout of the table has 256 entries per chunk slot |
| Lowercaser.DenseAt | src/sphinx.h:191-208 | flat entry `c` is entry `c & 255` of chunk `c >> 8` |
| Lowercaser.ToLowerIsDenseLookup | src/sphinx.h:191-200 | the sparse lookup equals the flat table below `MAX_CODE` and 0 from there on |
| Lowercaser.EmptyTableMapsToZero | src/sphinx.h:194-199 | a table with no chunk allocated maps every code to 0 |
| Tokenizer.CStr | src/sphinx.h:227 | the C string is the longest NUL-free prefix: the byte after it, if any, is NUL |
| Tokenizer.StrCmp | src/sphinx.h:227 | `strcmp`'s sign is -1, 0 or 1 |
| Tokenizer.StrCmpZeroIff | src/sphinx.h:227 | `strcmp` is 0 exactly when the C strings are equal |
| Tokenizer.StrCmpAntisymmetric | src/sphinx.h:227 | swapping the operands flips the sign |
| Tokenizer.StrCmpTransitive | src/sphinx.h:227 | "less than" by `strcmp` is transitive |
| Tokenizer.StrCmpOfCStr | src/sphinx.h:227 | `strcmp` ignores everything after the first NUL |
| Tokenizer.SynonymLess | src/sphinx.h:225-228 | ordered by `strcmp < 0` of the map-from C strings: then the strings differ, and `strcmp` the other way round is positive |
| Tokenizer.SynonymLessIsStrictWeakOrder | src/sphinx.h:218-228 | the synonym order is a strict weak order; two synonyms are unordered exactly when their map-from C strings are equal |
| Tokenizer.ClampMinWordLen | src/sphinx.h:257 | the kept length is at least 1 and at least the argument, and is the argument or 1 |
| Tokenizer.BaseTokenizer.constructor | src/sphinx.h:237 | minimum word length 1 and last token length 0 |
| Tokenizer.BaseTokenizer.SetMinWordLen | src/sphinx.h:257 | the minimum word length becomes `Max(len, 1)`, which keeps it at least 1; nothing else changes |
| Matches.Match.constructor | src/sphinx.h:986 | weight, geodistance and tag 0 over a cleared document part |
| Matches.SameDocument | src/sphinx.h:987 | a match always equals itself, and equal matches have the same document id |
| Matches.SameDocumentIsEquivalence | src/sphinx.h:987 | match equality is an equivalence that looks at the document id alone |
| Matches.Swap | src/sphinx.h:992-1000 | id, item count, row buffer, weight, tag and geodistance are exchanged, and both matches stay well formed |
| Matches.CRem | src/sphinx.h:1274 | C's truncating `%` lies in (-d, d), agrees with the floor remainder on non-negative operands, and is 0 exactly when `d` divides the operand |
| Matches.ComparatorState.constructor | src/sphinx.h:1253-1264 | all four arrays hold -1 in every slot, mask and time 0, and no slot is a bit field |
| Matches.ComparatorState.UsesBitfields | src/sphinx.h:1270-1277 | true exactly when some slot in use has a bit count other than 32 or an offset that is not a multiple of 32 |
| Matches.ComparatorState.GetAttr | src/sphinx.h:1280-1290 | the whole-item path returns the item the slot names; the bit path returns a value below 2^cnt |
| Matches.ComparatorState.ItemPathAgrees | src/sphinx.h:1270-1290 | for a slot that is not a bit field and whose row item is its offset / 32, both paths return the same value |
| Purge.IsEnabled | src/sphinx.h:1372-1375 | when purging is off, `IsShouldPurge` is false for every attribute row |
| Purge.DefaultPurgeData | src/sphinx.h:1357-1362 | attribute index -1, range [0, 0], purging off |
| Purge.IsShouldPurge | src/sphinx.h:1364-1370 | a document is purged only with an attribute index, purging on and an attribute row |
| Purge.KeptIffInRange | src/sphinx.h:1364-1370 | with an index, purging on and a row, a document is kept exactly when its attribute is in [min, max] |
| Purge.DisabledNeverPurges | src/sphinx.h:1357-1376 | with purging off, and with the default data, nothing is purged |
| Purge.EmptyRangePurgesAll | src/sphinx.h:1368-1369 | a range with min above max purges every document once enabled |
| Purge.WiderRangePurgesLess | src/sphinx.h:1368-1369 | widening [min, max] never purges a document the narrower range keeps |

## Left out

- Float attributes: `GetAttrFloat` and `SetAttrFloat` reinterpret row items as IEEE floats. Also left out are the geo-anchor fields and `sphLongTimer`. A match's `m_fGeodist` is carried as an uninterpreted 32-bit pattern that `Swap` exchanges.
- Data sources (SQL, MySQL, PgSQL, XMLpipe) are wrappers over client libraries and pipes. They are not part of this model.
- Process-level helpers are not part of this model: file locking, sleeping, `mlock`, shared-memory preread and the global quiet and error-callback state.
- Declarations without bodies in the header are not part of this model. These include `AddRemaps`, `SetCaseFolding`, `GetToken`, `LoadSynonyms`, the dictionary, `CSphSchema`, index build, merge and query, and the concrete sorters. Because `AddRemaps` is among them, no property of the table's contents (such as lowercasing being idempotent) is stated.
- Rows.SetRowAttr: a 32-bit field must start at a multiple of 32. The source's mask `(1UL << 32) - 1` depends on the width of `unsigned long` on the platform. The model keeps only the direct store, which is right for an aligned offset on any platform.
- Rows.RowWithAttr: fields wider than 32 bits are not modelled. The assertions admit them, but `1UL << cnt` for them is again platform-dependent. For the same reason a 32-bit field must start at a multiple of 32, as for `Rows.SetRowAttr`.
- Rows.GetRowAttr: fields wider than 32 bits are excluded, because the mask `(1UL << cnt) - 1` for them depends on the width of `unsigned long`. As in the source, a 32-bit field is read as its whole row item at any offset; that is the field's value only when the offset is a multiple of 32.
- Rows.DocInfo.GetAttrBits: requires the field to lie inside one row item, which the source's assertions do not demand. See Findings.
- Rows.DocInfo.SetAttr: requires the field to lie inside one row item, which the source's assertions do not demand. See Findings.
- Matches.ComparatorState.GetAttr: the bit path requires its slot's field to lie inside one row item, for the same reason.
- A document with no row items has a NULL buffer in the source and an empty array here. Item counts are natural numbers, and the document id is unbounded rather than 32 or 64 bits.
- `CSphMatch` derives from `CSphDocInfo`. Here a match holds its document part as a separate object, so the base-class methods are reached through it.
- `GetLastTokenLen` only returns a field that the bodiless `GetToken` writes, so it is not modelled; the field itself is kept and starts at 0.
- Tokenizer.StrCmp: returns the sign of `strcmp` only. Callers compare the result with 0, and the magnitude is unspecified in C.
- The destructors only free buffers. Memory management is not modelled.

## Findings

| source | as written | input that shows it | evidently intended | confidence | as-written member | corrected member |
|---|---|---|---|---|---|---|
| src/sphinx.h:446-471 | `GetAttr` and `SetAttr` assert only that the field starts and ends inside the row, yet read and write the single item `off / 32` with a mask cut at bit 31 | a row of two items, `SetAttr(24, 16, 0x1FF)`, then `GetAttr(24, 16)`: reads 0xFF, and item 1 is never written | the accessors are only meant for fields inside one row item (`off % 32 + cnt <= 32`), which the assertions should check | medium, not executed | Rows.StraddlingFieldLosesBits | Rows.DocInfo.SetAttr |
