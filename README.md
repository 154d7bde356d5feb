# oFono SIM-file codecs and lookup tables, modelled in Dafny

This project models the SIM utility layer of the oFono telephony daemon,
`src/simutil.c`. That layer decodes and encodes the contents of files on
the SIM card:

- a BER-TLV scanner (`ber_tlv_find_by_tag`);
- the network-name decoder of 3GPP TS 24.008 section 10.5.3.5a;
- the BCD MCC/MNC unpacker;
- the SPDI table of service-provider PLMNs: a sorted list with a
  membership test;
- the EONS object: a fixed PNN array filled record by record, and an OPL
  list that is prepended, reversed and searched for the first match;
- the ADN record parser and builder;
- the static table of elementary files, searched by binary search;
- the two GET RESPONSE parsers: the 3G FCP template of ETSI TS 102 221
  section 11.1.1.3 and the fixed 2G layout of 3GPP TS 51.011 section 9.2.1.

Modules, one per part of the source:

| module | models |
|---|---|
| `Bytes` | bytes, 16-bit values, `Option`, 32-bit wrap-around of C `int` and big-endian values |
| `BerTlv` | `ber_tlv_find_by_tag`, as specification functions and as a method with the source's loops |
| `SimText` | the converters the codecs call, and `sim_network_name_parse` |
| `Plmn` | `parse_mcc_mnc`, C strings and `strcmp` |
| `Spdi` | `spdi_operator_compare`, `sim_spdi_new`, `sim_spdi_lookup` |
| `Eons` | `struct sim_eons` as a class, with its operations |
| `Adn` | `sim_adn_parse`, and `sim_adn_build` as an in-place write to an array |
| `EfDb` | `ef_db`, `find_ef_by_id` and `sim_ef_db_lookup` |
| `GetResponse` | `sim_parse_3g_get_response` and `sim_parse_2g_get_response` |

The approach:

- Each loop of the source is a method. Its `ensures` ties the result to a
  specification function, and lemmas prove the source's promises about
  that function.
- The character-set and BCD converters the codecs call are not in
  `simutil.c`. They are fields of a `Converters` value, which the
  operations take as a parameter.
- Where the source's code departs from its evident intent (see Findings),
  the operations involved take an `asWritten` flag. `true` gives what the
  code does, and `false` gives the corrected reading. This applies to
  `NetworkNameParse`, `PnnUpdate`, `AddPnnRecord`, `Descriptor`,
  `DecodeFcp`, `Decode3g`, `ParseFcp` and `Parse3gGetResponse`.
- The file structures are defined once, in `EfDb` (`BINARY` 0, `RECORD` 1,
  `CYCLIC` 3), and the table and both GET RESPONSE parsers use them.
- `OFONO_MAX_MCC_LENGTH` and `OFONO_MAX_MNC_LENGTH` are taken as 3.
- `ROOTMF` is taken as 0x3F00.
- `is_bit_set(b, n)` is taken to test the bit of value `1 << n`.

The header that defines these (`simutil.h`, with `util.h` and `smsutil.h`)
is not part of this model.

## Model

| member | source | states |
|---|---|---|
| Bytes.Int32 | src/simutil.c:604-606 | the value a C `int` holds: in the signed 32-bit range, congruent to the input modulo 2^32, and the input itself when that is in range |
| BerTlv.SkipPadding | src/simutil.c:127-128 | the first offset at or after the cursor that is at the end or holds a byte other than 0x00/0xFF |
| BerTlv.SkipTagExtension | src/simutil.c:132-135 | the cursor never moves back, and it moves past at least the tag byte unless it reached the end |
| BerTlv.LengthPrefix | src/simutil.c:139-141 | the continuation loop stops inside the buffer on a byte below 0x80 unless only one byte remains, and the accumulated length is a multiple of 128 |
| BerTlv.ReadHeader | src/simutil.c:126-146 | a header that is read starts at or after the cursor, its tag byte is the byte at its tag offset and is not padding, and its value starts after the tag and by the end |
| BerTlv.WalkWellFormed | src/simutil.c:126-154 | every header the scan passes starts at or after the start offset, with its tag byte inside the buffer; each value but the last ends before the next header's tag and before the buffer end, so the cursor only moves forward |
| BerTlv.FirstFitIsFirst | src/simutil.c:147-151 | the selection is empty iff no header has the wanted tag and a value ending by the buffer end; otherwise it is the first such header |
| BerTlv.ScanIsFirstFit | src/simutil.c:126-156 | the do/while scan returns exactly the first header of the walk that has the tag and fits |
| BerTlv.FindHeaderFacts | src/simutil.c:119-157 | a found header's tag byte equals the wanted tag and its value region lies inside the buffer; nothing is found iff no header of the walk has that tag and fits |
| BerTlv.Lookup | src/simutil.c:147-151 | a returned value region starts after the first byte and ends by the buffer end |
| BerTlv.SkipPaddingLoop | src/simutil.c:127-128 | the padding loop stops where SkipPadding says |
| BerTlv.SkipTagExtensionLoop | src/simutil.c:132-135 | the tag loop stops where SkipTagExtension says |
| BerTlv.LengthPrefixLoop | src/simutil.c:139-141 | the length loop yields LengthPrefix's length and cursor |
| BerTlv.ReadHeaderLoop | src/simutil.c:126-146 | one pass of the loop body reads the header ReadHeader describes |
| BerTlv.FindByTag | src/simutil.c:119-157 | the scanner returns Lookup's result, and a returned region lies inside the buffer |
| BerTlv.LengthPrefixAsWritten | src/simutil.c:139-141 | the length loop with a 32-bit `int` accumulator stops inside the buffer |
| BerTlv.NegativeLengthAsWritten | src/simutil.c:139-147 | for 80 88 80 80 80 00 the 32-bit accumulator becomes -2^31, and the bounds test `pdu + len <= end` then passes with a region ending before the buffer start |
| BerTlv.OverlongLengthNotFound | src/simutil.c:139-157 | for the same bytes the corrected scanner reads a length of 2^31 and finds nothing |
| SimText.CountryInitialsAsWrittenFollowScheme | src/simutil.c:176-179 | testing bit 0x10 for "add country initials" flags exactly the bytes of coding schemes 1, 3, 5 and 7: every UCS-2 name and no GSM name |
| SimText.CountryInitialsIndependentOfScheme | src/simutil.c:176-179 | 0x88 is GSM with the flag set and 0x90 is UCS-2 without it; the flag and the scheme vary independently |
| SimText.UntilFF | src/simutil.c:181-183 | the GSM name is the longest prefix without 0xFF: a prefix of the bytes, without 0xFF, followed by 0xFF when shorter |
| SimText.NetworkNameParse | src/simutil.c:159-209 | rejected iff the buffer is empty or a UCS-2 name has an odd byte count without a trailing 0xFF; otherwise the add-CI flag is bit 0x10 of the coding byte as written (`asWritten`) and bit 0x08 when corrected; a GSM name is the bytes up to the first 0xFF, a UCS-2 name the bytes without the trailing filler, and any other scheme gives no name |
| SimText.NameReadingsAgree | src/simutil.c:168-203 | the two readings of the flag reject the same buffers and decode the same names |
| SimText.CountryInitialsOfNames | src/simutil.c:171-208 | the UCS-2 name 90 00 41 is flagged as written and not when corrected; the GSM name 88 41 the other way round |
| Plmn.ParseMccMnc | src/simutil.c:211-233 | the third MNC character is NUL iff the high nibble of byte 1 is the filler 0xF; the remaining properties are stated by Plmn.ParseMccMncFacts |
| Plmn.ParseMccMncFacts | src/simutil.c:211-233 | every character comes from the table; the third MNC character is NUL iff the high nibble of byte 1 is 0xF, so the MNC is then two characters; each of the six positions holds 'b' iff the nibble it is read from is 0xD |
| Plmn.NibbleCharInjective | src/simutil.c:213 | the digit table maps distinct nibbles to distinct characters; 0xF to NUL, 0xD to 'b' and 0-9 to the decimal digits |
| Plmn.CharNibble | src/simutil.c:213 | every table character is the image of a nibble |
| Plmn.ParsePackRoundTrip | src/simutil.c:211-233 | packing a 3-character MCC and a 2- or 3-character MNC made of the table's characters (`DIGITS`: 0-9, `*`, `#`, `a`, `b`, `d`) and unpacking gives the MCC and the MNC padded with NUL |
| Plmn.PackParseRoundTrip | src/simutil.c:211-233 | three bytes whose nibbles other than byte 1's high one are below 0xF unpack into codes made of the table's characters (`DIGITS`: 0-9, `*`, `#`, `a`, `b`, `d`; nibbles 0xA-0xE give the non-decimal ones) that pack back into the same bytes |
| Plmn.CStringFacts | src/simutil.c:239-244 | the C string of a character array is its prefix up to the first NUL, without NUL, followed by NUL when shorter |
| Plmn.StrCmpAntisymmetric | src/simutil.c:239-244 | `strcmp` is zero iff the strings are equal and changes sign when its arguments swap |
| Plmn.StrCmpTransitive | src/simutil.c:239-244 | `strcmp`'s order is transitive |
| Spdi.Compare | src/simutil.c:235-245 | the comparison yields -1, 0 or 1; its order properties are stated by Spdi.CompareAntisymmetric and Spdi.CompareTransitive |
| Spdi.CompareAntisymmetric | src/simutil.c:235-245 | two operators compare equal iff their MCC and MNC strings are equal; swapping the arguments changes the sign |
| Spdi.CompareTransitive | src/simutil.c:235-245 | the (mcc, mnc) order is transitive |
| Spdi.InsertSorted | src/simutil.c:275-276 | sorted insertion adds exactly the new operator to the list's multiset |
| Spdi.InsertSortedKeepsSorted | src/simutil.c:275-276 | sorted insertion keeps the list in non-decreasing order |
| Spdi.InsertAllSortedPermutation | src/simutil.c:268-277 | inserting the operators one by one yields a sorted permutation of them |
| Spdi.DecodedMembers | src/simutil.c:268-277 | an entry is kept iff it decodes one of the full 3-byte groups that is not all 0xFF |
| Spdi.SpdiOf | src/simutil.c:251-280 | no table iff the length is at most 5 or there is no top-level tag 0x80; the table's order and contents are stated by Spdi.SpdiOfFacts |
| Spdi.SpdiOfFacts | src/simutil.c:251-280 | no table iff the length is at most 5 or there is no top-level tag 0x80; otherwise the table is sorted and holds exactly one entry per used group |
| Spdi.SpdiNew | src/simutil.c:251-280 | the constructor returns SpdiOf's table, and None exactly in the two failure cases |
| Spdi.BuildTable | src/simutil.c:266-279 | the loop builds a sorted list that is a permutation of the decoded operators |
| Spdi.Truncate | src/simutil.c:290-291 | `g_strlcpy` into a 4-byte array keeps at most 3 characters of the C string, and all of a shorter one |
| Spdi.FindMembers | src/simutil.c:293-294 | the list search succeeds iff some entry's MCC and MNC equal the query strings |
| Spdi.SpdiLookup | src/simutil.c:282-295 | TRUE only for a present, non-empty table; the exact membership test is stated by Spdi.SpdiLookupMembers |
| Spdi.SpdiLookupMembers | src/simutil.c:282-295 | no table gives FALSE; otherwise TRUE iff some entry has the truncated query's MCC and MNC |
| Spdi.TableLookup | src/simutil.c:251-295 | a lookup in a built table succeeds iff some used group of the PLMN list decodes to the query |
| Spdi.NestedListIgnored | src/simutil.c:261 | a PLMN list nested in a constructed tag A3 is not found, and no table is built |
| Spdi.TwoEntriesDecoded | src/simutil.c:268-274 | the groups 13 00 14 and 02 F8 10 decode to (310, 410) and (208, 01) |
| Spdi.TwoEntriesInserted | src/simutil.c:275-276 | inserting (310, 410) and then (208, 01) puts (208, 01) first |
| Spdi.TwoEntriesSorted | src/simutil.c:251-280 | the table of those two groups is [(208, 01), (310, 410)] |
| Eons.Field | src/simutil.c:333-349 | a field is absent iff the scanner finds no value for its tag or finds one of length 0; otherwise it is exactly the value bytes the scanner locates, and not empty |
| Eons.PnnUpdate | src/simutil.c:326-353 | nothing changes iff the long-name tag 0x43 is absent or empty; otherwise the long name is the decoder's result, and its CI flag is the flag of its coding byte (bit 0x10 as written, 0x08 when corrected) or the old flag when the decoder gave up; the short name and its flag (0x45) and the info (0x80) are replaced only when their tags are present |
| Eons.FirstMatchIsFirst | src/simutil.c:416-441 | the list scan finds nothing iff no entry matches; otherwise it stops at the first matching entry |
| Eons.LookupResult | src/simutil.c:407-453 | a result is one of the PNN slots; there is one iff some OPL entry matches and the first matching entry's id is not 0 (which entry is first is stated by Eons.FirstMatchIsFirst) |
| Eons.LacAwareMatchesEarlier | src/simutil.c:433-441 | whenever the lookup without a LAC matches, the LAC-aware lookup matches too, at the same entry or an earlier one |
| Eons.OplOperatorAlloc | src/simutil.c:355-370 | the id is byte 7; the low LAC bound has bytes 3 and 4 as its high and low byte, the high bound bytes 5 and 6; Eons.OplOperatorLayout states the codes and the big-endian reading |
| Eons.OplOperatorLayout | src/simutil.c:355-370 | an OPL entry has the codes of bytes 0-2, the big-endian LAC bounds of bytes 3-4 and 5-6, and the id of byte 7 |
| Eons.Accepted | src/simutil.c:372-385 | every stored id is at most `pnn_max` |
| Eons.OptimizedOrder | src/simutil.c:372-390 | reversing the prepended list gives the accepted records in the order they were added |
| Eons.ReverseReverse | src/simutil.c:387-390 | reversing twice gives the list back |
| Eons.LoadedOrder | src/simutil.c:372-385 | before optimizing, the list holds the accepted entries last-added first |
| Eons.ReverseMembers | src/simutil.c:387-390 | reversal keeps the same entries |
| Eons.SimEons.constructor | src/simutil.c:311-319 | a new object has `pnn_records` empty slots, an empty OPL list and no valid PNN |
| Eons.SimEons.PnnIsEmpty | src/simutil.c:321-324 | TRUE only when every PNN slot is still empty |
| Eons.SimEons.AddPnnRecord | src/simutil.c:326-353 | only slot `record - 1` changes, as PnnUpdate says (with the source's flag bit when `asWritten`); when that update gives nothing, `pnn_valid` and every slot stay the same; otherwise `pnn_valid` becomes TRUE |
| Eons.SimEons.AddOplRecord | src/simutil.c:372-385 | the record is prepended when its id is at most `pnn_max` and discarded otherwise; the object stays valid (every stored id within the PNN array) |
| Eons.SimEons.Optimize | src/simutil.c:387-390 | the OPL list is reversed, and nothing else changes |
| Eons.SimEons.LookupCommon | src/simutil.c:407-453 | the result is the PNN slot of the first matching entry, and None when there is no match or its id is 0 |
| Eons.SimEons.Lookup | src/simutil.c:455-460 | the lookup without a LAC |
| Eons.SimEons.LookupWithLac | src/simutil.c:462-469 | the lookup with a LAC |
| Eons.CodeMatchLoop | src/simutil.c:419-424 | the character loop accepts iff each of the 3 positions is equal, or is a stored 'b' against a non-NUL query character |
| Eons.ScanOpl | src/simutil.c:416-443 | the scan stops at the first matching entry, and at the end iff none matches |
| Adn.AdnParse | src/simutil.c:471-509 | fails iff the record is shorter than 14 bytes, its length byte exceeds 11 or its type byte is 0xFF; a parsed type is a byte other than 0xFF |
| Adn.AdnRecordLayout | src/simutil.c:511-556 | the built record is the alpha field, then (n+1)/2+1, then the type byte, then the BCD bytes, then 0xFF up to the end of the 14-byte tail |
| Adn.ParseBuiltRecord | src/simutil.c:471-556 | parsing a built record of at most 20 digits with a type other than 0xFF succeeds and gives back the type, the alpha decoding of the written field and a BCD number of (n+1)/2 bytes |
| Adn.Fill | src/simutil.c:524 | `memset` sets the given range and leaves every other byte |
| Adn.Copy | src/simutil.c:531-532 | `memcpy` copies the source into the given range and leaves every other byte |
| Adn.AdnBuild | src/simutil.c:511-556 | the first `AlphaLength(length) + 14` bytes of the buffer (`length` bytes when `length` is at least 14, the 14-byte tail otherwise) become the ADN record, and the bytes after it do not change |
| Adn.FillAlpha | src/simutil.c:523-540 | the alpha part writes the GSM identifier cut to the field and pads it with 0xFF; the rest of the buffer stays |
| Adn.FillTail | src/simutil.c:542-555 | the tail part writes the 14-byte tail at the cursor and leaves the bytes before and after it |
| EfDb.EfTable | src/simutil.c:66-116 | the table has 49 entries; their order is stated by EfDb.EfDbStrictlyAscending |
| EfDb.EntriesAscending | src/simutil.c:66-116 | each table entry's id is below the next one's |
| EfDb.EfDbStrictlyAscending | src/simutil.c:66-116 | the table is strictly ascending by id |
| EfDb.Search | src/simutil.c:558-572 | a binary search result lies in the searched range and has the wanted id |
| EfDb.SearchComplete | src/simutil.c:558-572 | on a strictly ascending table the binary search finds an id that is in the range |
| EfDb.EfDbLookup | src/simutil.c:566-575 | a found entry has the wanted id and is in the table |
| EfDb.EfDbLookupComplete | src/simutil.c:566-575 | the lookup finds an entry iff the table holds that id |
| GetResponse.StructureAsWrittenNeverCyclic | src/simutil.c:623-635 | with the mask 0x3 the structure is never cyclic; only transparent or linear fixed |
| GetResponse.StructureReadings | src/simutil.c:623-635 | the masks 0x3 and 0x7 agree unless the type bits are 5 or 6: 5 reads as transparent instead of refused, 6 as linear fixed instead of cyclic |
| GetResponse.CyclicDescriptor | src/simutil.c:623-635 | the cyclic descriptor byte 0x46 reads as linear fixed as written and as cyclic when corrected |
| GetResponse.FileLengthIsBigEndian | src/simutil.c:604-606 | the accumulated file length is the big-endian value of the size bytes wrapped to 32 bits, and that value itself when below 2^31 |
| GetResponse.AccumulateFileLength | src/simutil.c:604-606 | the shift-or loop computes the 32-bit big-endian file length |
| GetResponse.Descriptor | src/simutil.c:615-646 | the descriptor is accepted iff it has 2 or 5 bytes, byte 1 is 0x21, the structure is known, and a record structure comes with 5 bytes; the record length is byte 3 for a record structure and 0 for a transparent one |
| GetResponse.DecodeFcp | src/simutil.c:597-684 | the template is accepted iff 0x80 has at least 2 bytes, 0x83 exactly 2, and 0x82 is present and accepted by Descriptor; an accepted file's access bytes are those its id and structure give; the reported values are stated by GetResponse.Decode3gFacts |
| GetResponse.Decode3g | src/simutil.c:577-684 | no result without an FCP template (tag 0x62), and a result's access bytes are those its id and structure give; the full conditions are stated by GetResponse.Decode3gFacts |
| GetResponse.Decode3gFacts | src/simutil.c:577-684 | success iff tag 0x62 is present and inside it 0x80 has at least 2 bytes, 0x83 exactly 2, and 0x82 is accepted; then the file length, id, structure, record length and access bytes are as decoded |
| GetResponse.Access3gFacts | src/simutil.c:654-666 | access byte 0 is 0x11 for an unknown file, otherwise read condition << 4 with the update condition in the low nibble; byte 1 is 0x1F for a cyclic file and 0xFF otherwise; byte 2 is 0x44 |
| GetResponse.AsWrittenNeverCyclic | src/simutil.c:623-666 | as written, a successful 3G parse reports transparent or linear fixed, and access byte 1 is always 0xFF |
| GetResponse.CyclicTemplateValues | src/simutil.c:599-615 | in the template 82 05 46 21 00 10 05 83 02 6F 3A 80 02 00 50 the scanner finds the descriptor, the file id 6F3A and the size 0050 |
| GetResponse.CyclicResponseTemplate | src/simutil.c:592 | the FCP tag 0x62 of that response holds the whole template |
| GetResponse.CyclicFileAsWritten | src/simutil.c:577-684 | as written, that cyclic file's response parses as linear fixed with 16-byte records and access byte 1 = 0xFF |
| GetResponse.CyclicFileCorrected | src/simutil.c:577-684 | with the three file-type bits, the same response parses as cyclic, with 16-byte records, 0x50 bytes, id 6F3A and access byte 1 = 0x1F |
| GetResponse.FindValue | src/simutil.c:592-615 | a tag lookup in the template yields the value bytes the scanner finds |
| GetResponse.ParseFcp | src/simutil.c:597-684 | parsing the template yields DecodeFcp's result, with the structure mask 0x3 as written (`asWritten`) or 0x7 when corrected |
| GetResponse.Parse3gGetResponse | src/simutil.c:577-684 | the 3G parser yields Decode3g's result: with `asWritten` the source's `tlv[0] & 0x3` reading, otherwise the corrected reading GetResponse3g |
| GetResponse.GetResponse2g | src/simutil.c:686-709 | success iff the response has at least 14 bytes, byte 6 is 4, and a record structure (1 or 3 in byte 13) comes with byte 14; the structure is then byte 13 and the access bytes 8-10; GetResponse.GetResponse2gFacts adds the length fields |
| GetResponse.GetResponse2gFacts | src/simutil.c:686-709 | success iff the response has at least 14 bytes, byte 6 is 4, and a record structure (1 or 3 in byte 13) comes with byte 14; then the file length is bytes 2-3 big-endian, the structure is byte 13, access is bytes 8-10, and the record length is byte 14 or 0 |
| GetResponse.Parse2gGetResponse | src/simutil.c:686-709 | the 2G parser yields GetResponse2g's result |

## Left out

- Memory release is not modelled (`sim_spdi_free`, `sim_eons_free`, `pnn_operator_free`): Dafny has no explicit deallocation.
- The converters are not modelled. `convert_gsm_to_utf8`, `g_convert`, `sim_string_to_utf8`, `convert_utf8_to_gsm`, `extract_bcd_number` and `encode_bcd_number` are not in `simutil.c`, so they are parameters.
- The GSList and `bsearch` internals are not modelled. The lists are sequences, insertion follows `g_slist_insert_sorted`'s placement, and the binary search follows glibc's halving.
- Each buffer-and-length pair of the source (`pdu`/`in_len`, `tlv`/`length`, `data`/`len`) is one sequence. The length is the sequence's length, so a caller cannot pass a length that disagrees with the buffer.
- NULL out-pointer checks are not modelled (`out_len`, `add_ci`, `identifier`, and the 3G parser's out-parameters). Every result is returned.
- The 2G parser's out-parameters are returned as values, and the 3G parser's fields are all returned together.
- Eons.SimEons.LookupCommon: returns the PNN slot's value instead of a pointer into the array, so aliasing the slot is not modelled.
- Eons.SimEons.AddPnnRecord: requires `1 <= record <= pnn_max`. The source indexes `pnn_list[record-1]` with no check, so any other record is undefined behaviour there.
- Eons.SimEons.AddOplRecord: requires at least 8 bytes, because the source reads bytes 0-7 without looking at its `length`, which it never uses.
- Eons.CodeMatchLoop: requires query codes of at least 3 characters, because the source reads positions 0-2 of the caller's strings.
- Adn.AdnBuild: requires `encodeBcd` to yield (n+1)/2 bytes for n digits, and at most 20 digits, because `encode_bcd_number` is not shown and the source assumes the number fits its 10-byte field.
- The UCS-2 loop at src/simutil.c:195-197 is not modelled. It looks for a 0xFF 0xFF pair but throws the index away, so the name passed to `g_convert` is not shortened there.
- The BER-TLV length in the main model is an unbounded integer. The 32-bit accumulator of the source is modelled separately in `BerTlv.LengthPrefixAsWritten` (see Findings).

## Findings

| source | as written | input that shows it | evidently intended | confidence | as-written member | corrected member |
|---|---|---|---|---|---|---|
| src/simutil.c:139-147 | the length is accumulated in a 32-bit `int` and shifted left by 7 per continuation byte, so five continuation bytes overflow; the value can become negative, and `pdu + len <= end` then accepts a region that ends before its own start | 80 88 80 80 80 00 (tag 0x80, length bytes 88 80 80 80 00) gives `len` = -2^31, which passes the bounds test | an over-long length is never accepted: the region must lie inside the buffer | not executed; evident from the C arithmetic | BerTlv.NegativeLengthAsWritten | BerTlv.OverlongLengthNotFound |
| src/simutil.c:623-635 | the structure switch is on `tlv[0] & 0x3`, so `case 6` (cyclic) can never be taken; a cyclic descriptor 0x46 is read as linear fixed, and 0x45 as transparent | the response 62 0F 82 05 46 21 00 10 05 83 02 6F 3A 80 02 00 50 (descriptor 46 21 00 10 05) | the file-type bits `tlv[0] & 0x7` of ETSI TS 102 221 section 11.1.1.4.3, where 6 is cyclic | not executed; high | GetResponse.CyclicFileAsWritten | GetResponse.CyclicFileCorrected |
| src/simutil.c:176-177 | `is_bit_set(dcs, 4)` tests the bit of value 0x10, which is the low bit of the coding scheme, so every UCS-2 name is flagged "add country initials" and no GSM name is | names 88 41 (GSM, add CI) and 90 00 41 (UCS-2, no CI) | bit 4 of 3GPP TS 24.008 section 10.5.3.5a, counted from 1, has value 0x08 | not executed; medium, because `is_bit_set` is defined in a header not part of this model | SimText.CountryInitialsOfNames | SimText.NetworkNameParse |
