# QR symbol construction, modelled in Dafny

This project models the core of the QrCode PHP library. Given a text, the
library builds a QR Code symbol (ISO/IEC 18004:2015) in these steps:

- **Mode managers.** `ModesManager`, and its older twin `Manager`, classify
  the text as numeric, alphanumeric or 8-bit. They prepare the
  structured-append header slots and hand the text to an encoder.
- **Encoders.** The three `EncodeMode` encoders (numeric, alphanumeric,
  8-bit) turn the text into parallel arrays of values and bit widths. The
  arrays hold the mode indicator, the character count and the payload.
- **`Builder::create`.**
  - counts the bits and picks the version (an explicit one, or the first
    that fits);
  - widens the count field for that version and appends the terminator;
  - packs the entries into 8-bit codewords with 236/17 padding;
  - appends the Reed–Solomon check bytes of every block;
  - places the bits in a side × side grid of bytes (bit i of a byte is the
    module's colour under mask i);
  - chooses a mask by the four penalty rules and writes the 15-bit format
    word.
- **Small entities.** `ErrorCorrection` is a guarded level holder, `Color`
  handles RGB and hexadecimal colours, and `ImageType` normalises image
  types.

Each source file becomes one or more modules: `Builder.php` is split by step (capacity, packing, Reed–Solomon, placement, the builder itself), and two proof modules, `MaskProof` and `BuildProof`, hold the properties that span several steps. `Bits` has no source file of its own: it defines PHP's bit operators. Code that updates fields or loops over
arrays is a `class` or a `method`, proved against a specification function.
Everything else is written as functions and lemmas.

- Text is a sequence of bytes.
- PHP arrays that are passed by value become `seq` (dense) or `map`
  (sparse).
- PHP `<<`, `>>`, `|`, `&` and `^` on non-negative integers are defined bit
  by bit in `Bits`.

The two binary table files the builder reads become parameters:

- `layouts(version, ecc)` supplies the placement coordinates, the mask
  bytes, the format-word cells, the block order and the number of check
  bytes.
- `rsTables(n)` supplies the 256-row multiplication table.

The model reproduces the library's observable quirks instead of correcting
them:

- The structured-append header values are dropped.
- An input that fills the capacity exactly leaves one extra codeword of 0,
  which the check bytes then follow.
- The packing pass runs twice. Its second run leaves the first run's value
  above the low byte of codeword `maxDataCodewords - 1`.
- A mask tie goes to the highest index.
- The mask is chosen again after the format word is written.
- `setVersion` accepts 0.

## Model

| member | source | states |
|---|---|---|
| NumericModes.DecimalValueBound | src/Modes/NumericMode.php:32-46 | A run of n digits read left to right as the encoder accumulates it is below 10^n. |
| NumericModes.NumericPayload | src/Modes/NumericMode.php:26-51 | The payload has one field per group of three digits, the last group possibly shorter. |
| NumericModes.NumericPayloadFits | src/Modes/NumericMode.php:32-50 | Every emitted value is below 2^width: 9 < 2^4, 99 < 2^7, 999 < 2^10. |
| NumericModes.NumericPayloadSnoc | src/Modes/NumericMode.php:33-46 | One more digit either opens a new group of width 4 holding the digit, or turns the last group into width 7 or 10 with value ten times the old one plus the digit; earlier groups are unchanged. |
| NumericModes.LastGroupExtend | src/Modes/NumericMode.php:38-46 | A digit after an incomplete last group joins that group, and the group count stays the same. |
| NumericModes.DigitsOfDecimalValue | src/Modes/NumericMode.php:38 | Writing a group's accumulated value back as a zero-padded decimal of the group's length gives the digits back. |
| NumericModes.NumericRoundTrip | src/Modes/NumericMode.php:26-51 | For a digit string, decoding the payload (each field back to 1, 2 or 3 digits by its width) gives the text back. |
| NumericModes.Payload12345 | src/Modes/NumericMode.php:32-50 | "12345" yields (123, 10) and (45, 7). |
| AlphanumericModes.CharValue | src/Modes/Base/EncodeMode.php:174-187 | The hash value is below 45, and for a character of the alphabet it is the position of that character in the 45-character alphabet. |
| AlphanumericModes.CharValueBijection | src/Modes/Base/EncodeMode.php:174-187 | The hash maps the 45 characters one-to-one onto 0..44. |
| AlphanumericModes.CharValueInjective | src/Modes/Base/EncodeMode.php:174-187 | Two characters of the alphabet with the same hash value are the same character. |
| AlphanumericModes.AlphanumericPayload | src/Modes/AlphanumericMode.php:28-47 | One field per pair of characters, the last possibly a single character. |
| AlphanumericModes.AlphanumericPayloadFits | src/Modes/AlphanumericMode.php:34-46 | Every value fits its width: at most 44·45 + 44 = 2024 < 2^11, and below 45 < 2^6 for a single character. |
| AlphanumericModes.AlphanumericPayloadSnoc | src/Modes/AlphanumericMode.php:35-43 | A character at an even position opens a 6-bit field with its value; at an odd position it turns the last field into an 11-bit pair, first·45 + second. |
| AlphanumericModes.AlphanumericRoundTrip | src/Modes/AlphanumericMode.php:28-47 | For text over the alphabet, decoding the payload gives the text back. |
| AlphanumericModes.PayloadHello | src/Modes/AlphanumericMode.php:34-46 | "HELLO" yields (779, 11), (966, 11), (24, 6). |
| EightBitModes.EightBitPayload | src/Modes/EightBitMode.php:26-38 | Exactly one field per input byte. |
| EightBitModes.EightBitPayloadFits | src/Modes/EightBitMode.php:51-54 | Every value is a byte (at most 255) and fits its 8 bits. |
| EightBitModes.EightBitPayloadWidth | src/Modes/EightBitMode.php:32-37 | The payload carries 8 × (byte length) bits. |
| EightBitModes.EightBitRoundTrip | src/Modes/EightBitMode.php:26-38 | Decoding the payload gives the bytes back. |
| EncodeModes.CountWidthsAreStandard | src/Modes/Base/EncodeMode.php:162-199 | The extra-width tables have 41 entries, and the base count width plus the version's extra equals the character-count width of Table 3 of ISO/IEC 18004:2015 at every version 1..40: 10/12/14, 9/11/13 and 8/16/16. |
| EncodeModes.PayloadFits | src/Modes/NumericMode.php:32-50 | Whatever the mode, every payload value is below 2^width. |
| EncodeModes.PayloadRoundTrip | src/Modes/Base/EncodeMode.php:122-131 | Whatever the mode, the payload of encodable text decodes back to the text. |
| EncodeModes.StoreKey | src/Modes/Base/EncodeMode.php:94-97 | A key is in the value map after storing a payload exactly when it was there before or is one of the stored slots. |
| EncodeModes.StoreGet | src/Modes/Base/EncodeMode.php:94-97 | A stored slot reads back its field's value, and any other key reads its old value. |
| EncodeModes.EncodingPayloadEntries | src/Modes/Base/EncodeMode.php:76-87 | After encoding, the prepared widths are a prefix of the width array, and the entries after the count slot are exactly the mode's payload. |
| EncodeModes.EncodingHeader | src/Modes/Base/EncodeMode.php:76-87 | The indicator overwrites the last prepared slot; the count (the byte length, with the base count width) takes the next slot, which becomes `codewordsNumCounter`; the value keys are the old keys plus the header and payload slots. |
| EncodeModes.EncodingCounterAndRoundTrip | src/Modes/NumericMode.php:26-51 | The counter ends on the last entry when the last group is incomplete, and one past it otherwise; the entries after the count slot decode back to the text. |
| EncodeModes.NumericStepOpen | src/Modes/NumericMode.php:33-36 | A digit at a multiple of three, written one past the last entry with width 4, extends the arrays to the payload of the longer prefix. |
| EncodeModes.NumericStepExtend | src/Modes/NumericMode.php:38-46 | Any other digit, written as value·10 + digit at the counter with width 7 or 10, extends the arrays to the payload of the longer prefix. |
| EncodeModes.AlphanumericStepOpen | src/Modes/AlphanumericMode.php:35-38 | A character at an even position, written one past the last entry with width 6, extends the arrays to the longer prefix's payload. |
| EncodeModes.AlphanumericStepPair | src/Modes/AlphanumericMode.php:39-43 | A character at an odd position, written as value·45 + hash at the counter with width 11, extends the arrays to the longer prefix's payload. |
| EncodeModes.EightBitPayloadSnoc | src/Modes/EightBitMode.php:32-37 | One more byte appends one field (byte, 8). |
| EncodeModes.EncodingAfterLoop | src/Modes/Base/EncodeMode.php:76-87 | `init` followed by the payload loop produces exactly the specified encoding results. |
| EncodeModes.EncodeMode.constructor | src/Modes/NumericMode.php:14-17 | A fresh encoder of the given kind has empty arrays, counters at 0, and its mode's extra-width table. |
| EncodeModes.EncodeMode.SetDatas | src/Modes/Base/EncodeMode.php:45-51 | Stores the text and the prepared widths and changes nothing else. |
| EncodeModes.EncodeMode.GetEncodingResults | src/Modes/Base/EncodeMode.php:65-70 | Runs the mode's encoder and returns [codewordNumPlus, dataValue, dataCounter, dataBits, codewordsNumCounter] as the specification of the encoding prescribes for the arrays it started from. |
| EncodeModes.EncodeMode.Encode | src/Modes/Base/EncodeMode.php:65-70 | Dispatches to the encoder of the object's kind; the results are the specified encoding of the stored text. |
| EncodeModes.EncodeMode.Init | src/Modes/Base/EncodeMode.php:76-87 | Writes the indicator at the last prepared slot and the text length at the next one with the given width, records that slot as `codewordsNumCounter`, and leaves the counter one past it. |
| EncodeModes.EncodeMode.GetDataValue | src/Modes/Base/EncodeMode.php:89-92 | Returns the value at the counter. |
| EncodeModes.EncodeMode.SetDataValue | src/Modes/Base/EncodeMode.php:94-97 | Only the value at the counter changes. |
| EncodeModes.EncodeMode.SetDataBits | src/Modes/Base/EncodeMode.php:99-102 | Only the width at the counter changes; at one past the end it is appended. |
| EncodeModes.EncodeMode.SaveCodewordsNumCounter | src/Modes/Base/EncodeMode.php:104-107 | Records the counter as `codewordsNumCounter`; nothing else changes. |
| EncodeModes.EncodeMode.InitDataCounter | src/Modes/Base/EncodeMode.php:109-112 | The counter starts on the last prepared slot; nothing else changes. |
| EncodeModes.EncodeMode.IncrementDataCounter | src/Modes/Base/EncodeMode.php:114-117 | The counter moves one on; nothing else changes. |
| EncodeModes.EncodeMode.EncodeNumeric | src/Modes/NumericMode.php:26-51 | Indicator 1, a 10-bit count, then the digit groups; the results equal the encoding specification. |
| EncodeModes.EncodeMode.NumericDigit | src/Modes/NumericMode.php:33-47 | One loop turn keeps the arrays equal to the payload of the digits read so far, and the counter at start + i/3. |
| EncodeModes.EncodeMode.EncodeAlphanumeric | src/Modes/AlphanumericMode.php:28-47 | Indicator 2, a 9-bit count, then the pairs; the results equal the encoding specification. |
| EncodeModes.EncodeMode.AlphanumericCharacter | src/Modes/AlphanumericMode.php:34-45 | One loop turn keeps the arrays equal to the payload of the characters read so far, and the counter at start + i/2. |
| EncodeModes.EncodeMode.EncodeEightBit | src/Modes/EightBitMode.php:26-38 | Indicator 4, an 8-bit count, then one entry per byte; the results equal the encoding specification. |
| ModesManagers.DigitsAreAlphanumeric | src/Modes/ModesManager.php:174-185 | Every digit string is also over the alphanumeric alphabet. |
| ModesManagers.ModeSelection | src/Modes/ModesManager.php:134-163 | Numeric exactly for digit strings; alphanumeric exactly for the other texts over the 45-character alphabet; 8-bit exactly for the rest. The chosen mode can encode the text, and the older manager picks the same mode. |
| ModesManagers.EmptyIsNumeric | src/Modes/ModesManager.php:174-177 | The empty text is classified numeric. |
| ModesManagers.XorAllAppend | src/Modes/ModesManager.php:111-115 | The parity of a concatenation is the XOR of the parities of its parts. |
| ModesManagers.XorAllTwice | src/Modes/ModesManager.php:111-115 | A text repeated twice has parity 0. |
| ModesManagers.Parity | src/Modes/ModesManager.php:104-118 | The XOR of all bytes of the original text when it has more than one byte (then a byte value); otherwise the supplied parity. |
| ModesManagers.PrepareDataBits | src/Modes/ModesManager.php:84-127 | With structured append (1 < n ≤ 16, 0 < m ≤ 16) the widths are [4, 4, 4, 8, 4] and the header values are 3, m − 1, n − 1 and the parity; otherwise the widths are [4] and there is no header. Only the widths are returned. |
| ModesManagers.HeaderValuesDropped | src/Modes/ModesManager.php:95-126 | With structured append, the encoder's results leave keys 0..3 unset behind widths 4, 4, 4, 8, so the packer reads them as 0; the indicator sits at index 4 and the count at index 5. |
| ModesManagers.NoStructureAppendLayout | src/Modes/ModesManager.php:124-126 | Without structured append, the indicator is at index 0 and the count (the text length, base width) at index 1. |
| ModesManagers.SelectedEncodingRoundTrip | src/Modes/ModesManager.php:70-77 | For any text and any structured-append settings, the payload entries of the selected encoder decode back to the text. |
| ModesManagers.ModesManager.constructor | src/Modes/ModesManager.php:9-17 | No text, no encoder, structured-append fields unset (read as 0). |
| ModesManagers.ModesManager.SetData | src/Modes/ModesManager.php:32-39 | Stores the text and builds a fresh encoder of the text's mode, holding the text and the widths prepared from the current structured-append fields; the fields themselves are kept. |
| ModesManagers.ModesManager.Init | src/Modes/ModesManager.php:70-77 | A fresh encoder of the selected mode receives the text and the prepared widths. |
| ModesManagers.ModesManager.SetStructureAppend | src/Modes/ModesManager.php:47-53 | Only stores the four fields; an encoder built earlier is unchanged. |
| ModesManagers.ModesManager.GetResults | src/Modes/ModesManager.php:58-61 | The current encoder's results, as the encoding specification prescribes. |
| Managers.Manager.constructor | src/Modes/Manager.php:9-17 | No text, no encoder, structured-append fields unset. |
| Managers.Manager.SetData | src/Modes/Manager.php:23-30 | Stores the text and builds a fresh encoder chosen by the nested conditional, over the prepared widths. |
| Managers.Manager.SetStructureAppend | src/Modes/Manager.php:32-38 | Only stores the four fields; an encoder built earlier is unchanged. |
| Managers.Manager.GetResults | src/Modes/Manager.php:43-46 | The current encoder's results, as the encoding specification prescribes. |
| Managers.ManagersAgree | src/Modes/Manager.php:55-114 | Both managers choose the same encoder and, for the same text and settings, produce the same encoding results. |
| ErrorCorrections.AcceptedLevelsAreTwoBitCodes | src/Entities/ErrorCorrection.php:10-30 | The accepted levels {1, 0, 3, 2} are exactly the two-bit codes 0..3. |
| ErrorCorrections.ErrorCorrection.constructor | src/Entities/ErrorCorrection.php:22 | The initial level is M (0). |
| ErrorCorrections.ErrorCorrection.Get | src/Entities/ErrorCorrection.php:46-49 | Returns the last accepted level, a two-bit code. |
| ErrorCorrections.ErrorCorrection.Set | src/Entities/ErrorCorrection.php:58-65 | The level becomes the argument if it is one of the four codes; otherwise it is unchanged. |
| ErrorCorrections.ErrorCorrection.SetErrorCorrection | src/Entities/ErrorCorrection.php:74-81 | Same guard and effect as `set`. |
| Capacity.LevelsShaped | src/Builder.php:550-570 | The capacity array is four level tables of 40 versions each. |
| Capacity.FlatAt | src/Builder.php:548-573 | Index version + 40·ecc of the flat array (a leading 0, then the four tables) is entry version − 1 of table ecc. |
| Capacity.MaxDataBitsByLevel | src/Builder.php:508-514 | The capacity of an explicit version is `table[version + 40·ecc]`, which is entry version − 1 of the level's table. |
| Capacity.LevelMIncreasing | src/Builder.php:551-554 | Level M's 40 capacities strictly increase. |
| Capacity.LevelMWholeBytes | src/Builder.php:551-554 | Level M's capacities are multiples of 8. |
| Capacity.LevelLIncreasing | src/Builder.php:556-559 | Level L's 40 capacities strictly increase. |
| Capacity.LevelLWholeBytes | src/Builder.php:556-559 | Level L's capacities are multiples of 8. |
| Capacity.LevelHIncreasing | src/Builder.php:561-564 | Level H's 40 capacities strictly increase. |
| Capacity.LevelHWholeBytes | src/Builder.php:561-564 | Level H's capacities are multiples of 8. |
| Capacity.LevelQIncreasing | src/Builder.php:566-569 | Level Q's 40 capacities strictly increase. |
| Capacity.LevelQWholeBytes | src/Builder.php:566-569 | Level Q's capacities are multiples of 8. |
| Capacity.LevelsChecked | src/Builder.php:550-570 | All four tables increase and count whole codewords. |
| Capacity.IncreasingApart | src/Builder.php:550-570 | In a strictly increasing table, any later entry is larger. |
| Capacity.FlatIncreasing | src/Builder.php:548-573 | In checked tables, a larger version reads a larger capacity, and every capacity is a multiple of 8. |
| Capacity.CapacityIncreasing | src/Builder.php:548-573 | At a fixed level, a larger version holds strictly more data bits, and every capacity is whole codewords. |
| Capacity.FlatVersionZero | src/Builder.php:548-573 | Index 40·ecc of the flat array is the leading 0, or the last entry of the previous table. |
| Capacity.VersionZeroCapacity | src/Builder.php:690-693 | Version 0, which `setVersion` accepts, reads capacity 0 at level M and the version-40 capacity of the previous level otherwise. |
| Capacity.RemainBits | src/Builder.php:590-598 | A version's remainder bits are at most 7. |
| Capacity.MaxCodewords | src/Builder.php:603-613 | A version has at most 3706 codewords. |
| Capacity.ModulesOneSide | src/Builder.php:949-952 | The side is 17 + 4·version. |
| Capacity.ByteNumber | src/Builder.php:490-493 | The byte number is the remainder bits plus 8 × the codewords. |
| Capacity.ByteNumberExamples | src/Builder.php:490-493 | Version 1 has 208 data modules in a 21-module side, and version 40 has 29648 in a 177-module side, as in Table 1 of ISO/IEC 18004:2015. |
| Capacity.EccCharacterHash | src/Builder.php:661-668 | A letter maps to a valid level code; any other key has no entry. |
| Capacity.EccCharacterMeaning | src/Builder.php:615-626 | A numeric level is used as it is. L/l, M/m, Q/q and H/h give the level constants 1, 0, 3 and 2. An unknown letter reads as 0 (M). |
| Capacity.FirstFitIsSmallest | src/Builder.php:527-546 | The first-fit loop from a version on finds the smallest version that holds the bits plus its count-field widening, and none only when no such version exists. |
| Capacity.DataBitsTotalIsStreamLength | src/Builder.php:495-506 | The total of the widths below the counter is the length of the bit stream the packer writes for those entries. |
| Capacity.GetDataBitsTotal | src/Builder.php:495-506 | The loop returns the sum of the widths of the slots below `dataCounter`. |
| Capacity.TerminatorMeaning | src/Builder.php:859-877 | Overflow exactly when total > max. Otherwise the slots below the counter are untouched, and the slot at the counter holds a zero of 4 bits (total ≤ max − 4), of max − total bits (max − 4 < total < max), or stays as it was (total = max). |
| Capacity.TerminatedTotal | src/Builder.php:859-877 | With the slot at the counter empty, the terminated stream is the data plus 4 bits or exactly the capacity, and never more than the capacity. |
| Capacity.PrefixTotal | src/Builder.php:495-506 | Width arrays that agree below n have the same total. |
| Codewords.Put | src/Builder.php:977 | Assigning a key of a PHP array: only that key changes, and the array grows only when the key is the next one. |
| Codewords.PlaceBits | src/Builder.php:975-999 | The inner packing loop keeps the packer state well formed: the counter stays within the keys. |
| Codewords.AfterByte | src/Builder.php:991-997 | Completing a codeword keeps the state well formed. |
| Codewords.PackEntries | src/Builder.php:969-1001 | The dividing loop over several entries keeps the state well formed. |
| Codewords.PadLength | src/Builder.php:1012-1022 | The padding reaches key maxDataCodewords − 1 and drops nothing. |
| Codewords.PackedFields | src/Builder.php:971-972 | Entry i is `@dataValue[i]`, `@dataBits[i]`, a missing slot reading as (0, 0). |
| Codewords.Padded | src/Builder.php:1004-1006 | A stream completed with zeros to whole bytes keeps the stream as its prefix. |
| Codewords.DataCodewords | src/Builder.php:962-1022 | The prescribed data codewords have exactly maxDataCodewords entries: the stream in big-endian bytes, the last byte left-aligned, then 236, 17, 236, … |
| Codewords.PlaceBuffer | src/Builder.php:974-999 | The inner loop for one entry ends in the state the packing specification gives for that entry. |
| Codewords.CompleteCodeword | src/Builder.php:980-998 | The high bits complete the current codeword; the next codeword is zeroed only below maxDataCodewords − 1; the loop continues with the masked low bits exactly when some are left. |
| Codewords.AddPadding | src/Builder.php:1012-1022 | The keys after the counter up to maxDataCodewords − 1 get 236 and 17 in turn. |
| Codewords.DivideAndPad | src/Builder.php:965-1022 | One pass over the array equals the pass specification. |
| Codewords.DivideEntries | src/Builder.php:965-1001 | Key 0 is set to 0 and the entries 0..dataCounter are placed in turn, ending in the state the specification gives. |
| Codewords.FinishCodewords | src/Builder.php:1004-1022 | A partial last codeword is shifted left, or the counter steps back; then the padding. |
| Codewords.GetCodewords | src/Builder.php:962-1087 | The array returned is the same pass run twice, the first time over an empty array. |
| Codewords.CodewordsLength | src/Builder.php:962-1087 | Whatever the entries, at least the maxDataCodewords keys that `prepareRsEcc` reads are present. |
| Codewords.PassLength | src/Builder.php:965-1022 | One pass leaves at least maxDataCodewords keys. |
| PackingProof.ArrayPlace | src/Builder.php:975-999 | Running the inner loop on the array acts on its complete and partial codewords exactly as appending the entry's bits to the stream does. |
| PackingProof.PlaceHolds | src/Builder.php:975-999 | Placing an entry that fits its width appends its bits, big-endian, to the packed stream. |
| PackingProof.PackHolds | src/Builder.php:969-1001 | After entries 0..n − 1, the array holds the big-endian concatenation of their bits. |
| PackingProof.FinishWhole | src/Builder.php:1007-1022 | A stream of whole codewords is completed by padding alone. |
| PackingProof.FinishPartial | src/Builder.php:1004-1022 | A stream ending inside a codeword has that codeword left-aligned with zeros before the padding. |
| PackingProof.FinishMeaning | src/Builder.php:1004-1022 | The end of a pass yields the data codewords and then the pad codewords. |
| PackingProof.PassMeaning | src/Builder.php:965-1022 | Below the capacity, a pass yields the prescribed codewords, each above the stale value the key held; keys from the capacity on keep their values; the array grows past the capacity only when the entries fill it exactly. |
| PackingProof.PackedFieldsSnoc | src/Builder.php:970 | Entries 0..n are entries 0..n − 1 followed by entry n. |
| PackingProof.DataCodewordIsByte | src/Builder.php:1005 | Every data codeword is a byte. |
| PackingProof.SecondPassValues | src/Builder.php:1024-1086 | In the second pass only key maxDataCodewords − 1 (when it is not key 0 and the data reaches it) keeps its first-pass value, which then sits above the new byte as 257·byte; its low byte is still the prescribed one. |
| PackingProof.CodewordsMeaning | src/Builder.php:962-1087 | `getCodewords` returns the prescribed data codewords (big-endian entries, left-aligned last byte, 236/17 padding) in the low 8 bits of keys 0..maxDataCodewords − 1; only key maxDataCodewords − 1 can exceed 255; at most one more key follows, holding 0, and only on an exact fill. |
| PackingProof.PassGrows | src/Builder.php:970-998 | Entries that fill the capacity exactly, the last of them of width 0, make a pass write key maxDataCodewords. |
| PackingProof.ExactFillExtraCodeword | src/Builder.php:970-998 | An exact fill with no terminator leaves maxDataCodewords + 1 codewords, the extra one 0. |
| ReedSolomon.XorStrings | src/Builder.php:929 | PHP `^` on two strings has the length of the shorter one. |
| ReedSolomon.StepsLength | src/Builder.php:922-936 | Each turn of the division loop takes exactly one byte off the front. |
| ReedSolomon.RemainderLength | src/Builder.php:916-936 | A block of d data bytes leaves exactly r check bytes. |
| ReedSolomon.StepsOnZeros | src/Builder.php:931-933 | On zero bytes every turn takes the shift branch. |
| ReedSolomon.ZeroBlockRemainder | src/Builder.php:919-936 | A block whose data bytes are all 0 gets r zero check bytes, whatever the table. |
| ReedSolomon.LinearRowZero | src/Builder.php:926-933 | Row 0 of a linear table is zero, so the shift branch is the XOR branch with row 0. |
| ReedSolomon.StepUniform | src/Builder.php:924-933 | With a linear table, both branches of one turn are the XOR of the rest with the first byte's row. |
| ReedSolomon.StepLinear | src/Builder.php:924-933 | One turn maps the XOR of two strings to the XOR of their turns. |
| ReedSolomon.StepsLinear | src/Builder.php:922-936 | Any number of turns maps the XOR of two strings to the XOR of their results. |
| ReedSolomon.RemainderLinear | src/Builder.php:916-936 | With a linear (GF(256) multiplication) table, the check bytes of the XOR of two blocks are the XOR of their check bytes, as for the polynomial division of section 7.5.2 of ISO/IEC 18004:2015. |
| ReedSolomon.EccBlock | src/Builder.php:916-936 | The loop for one block computes the specified remainder of the data followed by r zeros. |
| ReedSolomon.DataBlock | src/Builder.php:898-909 | A block's data has its data length (block length less r). |
| ReedSolomon.SplitBlocks | src/Builder.php:893-909 | The data codewords are split, as bytes, into the blocks of the block order, followed by one empty block. |
| ReedSolomon.BlockRemainders | src/Builder.php:912-941 | One check-byte string per block. |
| ReedSolomon.PrepareRsEcc | src/Builder.php:887-944 | The result is the whole codeword array followed by every block's check bytes, in block order. |
| ReedSolomon.BlockRemaindersShape | src/Builder.php:916-936 | Every block has r check bytes; a block of zero data bytes has zero check bytes. |
| ReedSolomon.PrepareRsEccMeaning | src/Builder.php:887-944 | The codeword array is kept as a prefix; block b's r check bytes sit at offset b·r after it; a zero block's check bytes are zeros there. |
| ReedSolomon.ConcatChunk | src/Builder.php:938 | Parts of r bytes each lie one after another, part c at offset c·r. |
| Masks.HorizontalLine | src/Entities/Mask.php:183-191 | A horizontal line has `side` bytes. |
| Masks.ProjectionsTranspose | src/Entities/Mask.php:180-195 | horizontal[k·side + l] = grid[l][k] and vertical[k·side + l] = grid[k][l]. |
| Masks.DarkIffBit | src/Entities/Mask.php:120-134 | After masking and complementing, a module is dark for candidate i exactly when bit i of its byte is set; 0 is always light and 255 always dark; the dark byte is neither 255 nor the separator. |
| Masks.SeparatorSplitsRuns | src/Entities/Mask.php:130-166 | A separator byte ends every run, so the run penalties of the lines add up independently. |
| Masks.SeparatorSplitsOccurrences | src/Entities/Mask.php:137-140 | No occurrence of a pattern free of the separator spans a separator, so finder-pattern counts add up line by line. |
| Masks.SkipToSeparator | src/Entities/Mask.php:140 | A segment shorter than the pattern, then a separator, contributes no occurrence. |
| Masks.BalanceZero | src/Entities/Mask.php:141 | When twice the dark count equals `byteNumber`, the N4 penalty is 0. Here `byteNumber` is the number of data modules (8 per codeword plus the remainder bits), while the dark count covers every dark module of the grid, function patterns and format cells included. |
| Masks.LargestArgMinUnique | src/Entities/Mask.php:170-174 | At most one index is a minimum with every later score strictly larger. |
| Masks.ChooseStep | src/Entities/Mask.php:170-174 | One step of the choice: the first score, or a score at or below the running minimum, takes over; afterwards the chosen index is still the last minimal one. |
| Masks.Scores | src/Entities/Mask.php:116-168 | Eight scores, one per candidate; MaskProof.MaskNumberOnGrid shows each is the grid score N1 + N2 + N3 + N4 of the rules below. |
| Masks.LastMinimum | src/Entities/Mask.php:112-177 | The choice is a minimal score, and every later score is strictly larger: ties go to the highest index. |
| Masks.MaskNumberOf | src/Entities/Mask.php:112-177 | The chosen mask number is in 0..7. |
| Masks.LastMinimumUnique | src/Entities/Mask.php:170-174 | Any index meeting the selection contract is the one the loop chooses. |
| MaskProof.ChunkSplitJoined | src/Entities/Mask.php:130-134 | `chunk_split` by n with the separator is the pieces of n bytes, each followed by the separator. |
| MaskProof.ChunksShape | src/Entities/Mask.php:133-134 | A string of m·n bytes is cut into m pieces of n bytes. |
| MaskProof.ChunkEntry | src/Entities/Mask.php:133-134 | Byte l of piece k is byte k·n + l of the string. |
| MaskProof.JoinedRuns | src/Entities/Mask.php:137-166 | Runs of a byte other than the separator, scanned over the joined lines, add up line by line. |
| MaskProof.JoinedOccurrences | src/Entities/Mask.php:138-140 | Occurrences of a pattern without the separator, counted over the joined lines, add up line by line. |
| MaskProof.LinesRunSumAppend | src/Entities/Mask.php:135 | The run sum of two groups of lines is the sum of their run sums. |
| MaskProof.RunSumAbsent | src/Entities/Mask.php:137 | A line without the counted entry adds nothing. |
| MaskProof.RunSumAfter | src/Entities/Mask.php:137 | A stretch ending in another entry closes its runs before the rest begins. |
| MaskProof.RunSumCopies | src/Entities/Mask.php:137 | Scanning n copies of the entry lengthens the current run by n. |
| MaskProof.RunSumClosed | src/Entities/Mask.php:137 | An entry other than the counted one, or the end, closes the current run. |
| MaskProof.MaximalRun | src/Entities/Mask.php:137-166 | A maximal run of n equal entries adds n minus 2 (N1, from 5 on) or n minus 1 (N2, from 2 on) to what the entries around it add. |
| MaskProof.RunSumAgree | src/Entities/Mask.php:137-144 | Two lines equal to their counted entries at the same places have the same run sum. |
| MaskProof.SameMatch | src/Entities/Mask.php:138 | Two strings that match their patterns at the same places match them both or neither. |
| MaskProof.OccurrencesAgree | src/Entities/Mask.php:138-140 | Two lines matching their patterns at the same places have the same occurrence count. |
| MaskProof.LinesRunSumAgree | src/Entities/Mask.php:137 | Lines that agree line by line have the same run sum. |
| MaskProof.ShadedAgree | src/Entities/Mask.php:121-134 | Byte lines shading colour lines hold the dark byte exactly at the dark modules and 255 exactly at the light ones. |
| MaskProof.ShadedOccurrences | src/Entities/Mask.php:138-140 | The byte finder pattern occurs in the byte lines as often as the colour finder pattern (dark, light, dark, dark, dark, light, dark) in the colour lines. |
| MaskProof.SelectedEntry | src/Entities/Mask.php:122-133 | Byte l of line k of the complemented, selected string is the complement of the candidate's bit of byte k·n + l. |
| MaskProof.RowEntry | src/Entities/Mask.php:180-195 | Byte l of horizontal line k is the shade of module (l, k): row k of the grid. |
| MaskProof.ColumnEntry | src/Entities/Mask.php:180-195 | Byte l of vertical line k is the shade of module (k, l): column k of the grid. |
| MaskProof.RowsShaded | src/Entities/Mask.php:133 | The horizontal lines shade the grid's rows. |
| MaskProof.ColumnsShaded | src/Entities/Mask.php:134 | The vertical lines shade the grid's columns. |
| MaskProof.SelectedAt | src/Entities/Mask.php:122-124 | Entry k·side + l of the selected vertical projection is the candidate's bit when module (k, l) is dark under it, 0 otherwise. |
| MaskProof.ShiftedAt | src/Entities/Mask.php:126-129 | The padded projection and its copy shifted by one line hold, at entry k·side + l, lines k and k − 1, or the padding past either end. |
| MaskProof.OrBytes | src/Entities/Mask.php:130 | `~(a \| b)` is 255 exactly when both bytes are 0. |
| MaskProof.AndBytes | src/Entities/Mask.php:131 | For bytes that are 0 or the candidate's bit, `~(a & b)` is the dark byte exactly when both are the bit. |
| MaskProof.OrEntry | src/Entities/Mask.php:126-130 | Entry k·side + l of `~(ver_shift1 \| ver_shift2)` is 255 exactly when 0 < k < side and modules (k − 1, l) and (k, l) are both light. |
| MaskProof.AndEntry | src/Entities/Mask.php:128-131 | Entry k·side + l of `~(ver_shift1_0 & ver_shift2_0)` is the dark byte exactly when 0 < k < side and modules (k − 1, l) and (k, l) are both dark. |
| MaskProof.PairRuns | src/Entities/Mask.php:143-157 | Lines holding the counted byte exactly where the pair lines are true have the pair lines' run sum. |
| MaskProof.OrPairs | src/Entities/Mask.php:144-157 | The runs of 255 in `ver_or` are the runs of neighbouring-column pairs that are both light. |
| MaskProof.AndPairs | src/Entities/Mask.php:143-150 | The runs of the dark byte in `ver_and` are the runs of neighbouring-column pairs that are both dark. |
| MaskProof.ViewsLines | src/Entities/Mask.php:133-135 | The scanned string is the horizontal lines, a separator, then the vertical lines, each line closed by the separator. |
| MaskProof.ViewsRuns | src/Entities/Mask.php:137-166 | The runs of one colour in the scanned string are the runs of that colour in the rows and in the columns. |
| MaskProof.PenaltyN1OnGrid | src/Entities/Mask.php:137-166 | The scorer's N1 is the grid's N1: each run of five or more modules of one colour in a row or a column adds its length minus 2. |
| MaskProof.PenaltyN2OnGrid | src/Entities/Mask.php:126-159 | The scorer's N2 is the grid's N2: three times (length − 1) for each run of two or more rows in which two neighbouring columns are both dark, or both light. |
| MaskProof.PenaltyN3OnGrid | src/Entities/Mask.php:138-140 | The scorer's N3 is the grid's N3: 40 for each non-overlapping dark-light-dark-dark-dark-light-dark pattern in a row, then in a column. |
| MaskProof.PenaltyN4OnGrid | src/Entities/Mask.php:141 | The scorer's N4 is the balance penalty of the number of dark modules of the grid. |
| MaskProof.DarkColumnCount | src/Entities/Mask.php:141 | The dark entries of a column from row `lo` down are the dark modules there. |
| MaskProof.DarkCount | src/Entities/Mask.php:141 | The dark entries of the columns from `lo` on are the dark modules there. |
| MaskProof.ScoreOnGrid | src/Entities/Mask.php:116-168 | The scorer's score of candidate i is N1 + N2 + N3 + N4 of the grid under candidate i. |
| MaskProof.GridScores | src/Entities/Mask.php:116-168 | One grid score per candidate, eight in all. |
| MaskProof.MaskNumberOnGrid | src/Entities/Mask.php:112-177 | The scorer's eight scores are the grid scores, and the chosen mask is the last candidate with the lowest grid score. |
| Masks.Mask.CurrentScores | src/Entities/Mask.php:116-168 | The eight scores of the current projections. |
| Masks.Mask.constructor | src/Entities/Mask.php:30-37 | Stores the grid and sizes, builds both projections, and chooses a mask in 0..7 whose score is minimal, with every later score strictly larger. |
| Masks.Mask.GetNumber | src/Entities/Mask.php:85-88 | Returns the chosen mask. |
| Masks.Mask.GetSelect | src/Entities/Mask.php:93-99 | Returns the horizontal and vertical projections. |
| Masks.Mask.Init | src/Entities/Mask.php:108-178 | Appends the projections, then keeps the last minimal of the eight candidates: a minimum with every later score strictly larger. |
| Masks.Mask.InitSelect | src/Entities/Mask.php:180-195 | Appends the row-major and column-major projections of the grid and changes no mask. |
| Matrix.Assign | src/Builder.php:789 | One assignment keeps the grid's shape. |
| Matrix.AssignCell | src/Builder.php:789 | One assignment changes only the cell it names. |
| Matrix.ApplySnoc | src/Builder.php:782-804 | Carrying out one more assignment is assigning to the result of the earlier ones. |
| Matrix.ApplyStep | src/Builder.php:789 | One in-place assignment inside a square grid continues the run of assignments and keeps the grid square. |
| Matrix.ApplyMiss | src/Builder.php:782-804 | A cell that no assignment names keeps its value. |
| Matrix.ApplyHit | src/Builder.php:782-804 | A cell holds the value of the last assignment that names it. |
| Matrix.Blank | src/Builder.php:761-775 | The blank grid is side × side. |
| Matrix.BlankCell | src/Builder.php:761-775 | Every cell of the blank grid is 0. |
| Matrix.FlashMatrix | src/Builder.php:761-775 | The clearing loops produce the side × side grid of zeros. |
| Matrix.Position | src/Builder.php:782-804 | Step k writes a position in 1..8M + R, a codeword position exactly for the first 8M steps. |
| Matrix.StepOf | src/Builder.php:782-804 | Every position is written at some step. |
| Matrix.PositionInjective | src/Builder.php:782-804 | Every position is written at exactly one step. |
| Matrix.CodewordBit | src/Builder.php:786-791 | A codeword bit is 0 or 1; a codeword past the end reads as 0. |
| Matrix.PlacementWrites | src/Builder.php:782-804 | The assignments of `getMatrixContent`, one per step. |
| Matrix.PlacementWritesAt | src/Builder.php:782-804 | Assignment k writes the byte of the position of step k. |
| Matrix.MatrixContent | src/Builder.php:759-807 | The placed grid is (17 + 4v) square. |
| Matrix.AndOne | src/Builder.php:789 | `c & 1` is the lowest bit of c. |
| Matrix.CodewordStep | src/Builder.php:784-793 | Step 8i + 8 − j writes position 8i + j with bit 8 − j of codeword i. |
| Matrix.RemainderStep | src/Builder.php:797-804 | Step 8M + R − m writes remainder position 8M + m with 255. |
| Matrix.PlaceRemainderBit | src/Builder.php:799-802 | One turn of the remainder loop extends the applied assignments by one. |
| Matrix.PlaceCodewordBit | src/Builder.php:786-792 | One turn of the codeword loop extends the applied assignments by one. |
| Matrix.PlaceCodeword | src/Builder.php:784-794 | The eight bits of codeword i, most significant first, go to positions 8i + 8 down to 8i + 1. |
| Matrix.PlaceRemainder | src/Builder.php:797-804 | The remainder positions from 8M + R down to 8M + 1 get 255 XOR their mask byte. |
| Matrix.GetMatrixContent | src/Builder.php:759-807 | The method returns the placed grid of the specification. |
| Matrix.PositionCell | src/Builder.php:782-804 | With distinct coordinates, the cell of position p holds that position's byte. |
| Matrix.UnplacedCell | src/Builder.php:759-807 | A cell that no position names stays 0. |
| Matrix.MatrixCells | src/Builder.php:759-807 | With distinct coordinates, position 8i + j holds (255 if bit 8 − j of codeword i is set, else 0) XOR its mask byte, remainder positions hold 255 XOR the mask byte, and every other cell is 0. |
| Matrix.PositionBits | src/Builder.php:789 | Bit t of a placed byte is the data bit flipped where bit t of the mask byte is set; a remainder module counts as data bit 1. |
| Matrix.FormatValueIndex | src/Builder.php:820 | (ecc << 3) \| mask is 8·ecc + mask and lies in 0..31. |
| Matrix.ContentByte | src/Builder.php:838-845 | A format digit '1' becomes 255 and any other digit 0. |
| Matrix.FormatWordsShape | src/Builder.php:821-830 | There are 32 format words of 15 digits each. |
| Matrix.FormatWrites | src/Builder.php:838-845 | Two assignments per digit. |
| Matrix.FormatWritesAt | src/Builder.php:838-845 | Assignment k writes digit k / 2 to the fixed cell when k is even and to the table cell when k is odd. |
| Matrix.FixedFormatCellsDistinct | src/Builder.php:832-833 | The 15 fixed format cells are distinct. |
| Matrix.WriteFormatInformation | src/Builder.php:820-846 | Digit i of format word `value` is written, as 0 or 255, to fixed cell i and then to table cell i, for i = 0..14. |
| Matrix.FormatCells | src/Builder.php:816-848 | With 30 distinct cells, each of the 15 fixed and 15 table cells holds its digit as 0 or 255, and every other cell keeps its value. |
| Matrix.FormatHit | src/Builder.php:838-845 | No later format assignment lands on the cell of an earlier one. |
| FormatCodes.BchStep | src/Builder.php:821-830 | One step of the long division clears the term x^k and leaves the higher terms alone. |
| FormatCodes.BchRemainder | src/Builder.php:821-830 | The remainder modulo the generator x^10 + x^8 + x^5 + x^4 + x^2 + x + 1 has at most 10 bits. |
| FormatCodes.BchWord | src/Builder.php:821-830 | With the mask 101010000010010 removed, the top five bits of the BCH word are its data bits. |
| FormatCodes.FormatText | src/Builder.php:821-830 | A format word as text has 15 digits. |
| FormatCodes.MaskWords0 | src/Builder.php:821-830 | The four table entries of mask 0 are the masked BCH(15,5) words of their index. |
| FormatCodes.MaskWords1 | src/Builder.php:821-830 | The same for mask 1. |
| FormatCodes.MaskWords2 | src/Builder.php:821-830 | The same for mask 2. |
| FormatCodes.MaskWords3 | src/Builder.php:821-830 | The same for mask 3. |
| FormatCodes.MaskWords4 | src/Builder.php:821-830 | The same for mask 4. |
| FormatCodes.MaskWords5 | src/Builder.php:821-830 | The same for mask 5. |
| FormatCodes.MaskWords6 | src/Builder.php:821-830 | The same for mask 6. |
| FormatCodes.MaskWords7 | src/Builder.php:821-830 | The same for mask 7. |
| FormatCodes.DataBits | src/Builder.php:820 | The five data bits are the two-bit level code followed by the three-bit mask number. |
| FormatCodes.FormatWordsAreBch | src/Builder.php:821-830 | Each of the 32 table entries is the BCH(15,5) word of its index XOR 101010000010010, as section 7.9.1 of ISO/IEC 18004:2015 prescribes. |
| FormatCodes.FormatWordIsBch | src/Builder.php:816-830 | The word `formatInformation` selects for a level and mask is the masked BCH word of the level and mask bits. |
| Colors.StripHashes | src/Entities/Color.php:201 | Every '#' is removed; a string without '#' is unchanged. |
| Colors.DigitValue | src/Entities/Color.php:205-212 | A hexadecimal digit's value is below 16. |
| Colors.HexDecBound | src/Entities/Color.php:205-212 | `hexdec` of n characters is below 16^n. |
| Colors.HexDecPair | src/Entities/Color.php:210-212 | Two hexadecimal digits read as 16·first + second. |
| Colors.HexToRgb | src/Entities/Color.php:196-218 | Succeeds exactly when the string without '#' has length 3 or 6; otherwise InvalidHexValue. A success is always in range. |
| Colors.SixDigitComponents | src/Entities/Color.php:209-213 | Six digits are read as three pairs, most significant first. |
| Colors.ThreeDigitComponents | src/Entities/Color.php:203-208 | Three digits are doubled: each component is 17 × its digit. |
| Colors.StripLeadingHash | src/Entities/Color.php:201 | A leading '#' is dropped from a '#'-free rest. |
| Colors.HashSixDigits | src/Entities/Color.php:196-218 | '#' plus six hexadecimal digits gives the three pairs. |
| Colors.BadassHex | src/Entities/Color.php:196-218 | "#bada55" gives (186, 218, 85). |
| Colors.HashtagIsNotHex | src/Entities/Color.php:229-239 | "#hashtag" is rejected with InvalidHexValue. |
| Colors.Color.constructor | src/Entities/Color.php:19-22 | `new Color` with the default arguments is (0, 0, 0). |
| Colors.NewColor | src/Entities/Color.php:19-22 | `new Color(r, g, b)` succeeds exactly when all three components are in 0..255 and then yields a fresh colour (r, g, b); otherwise it throws IncorrectRGBValues and there is no object. |
| Colors.Color.SetValues | src/Entities/Color.php:97-106 | Succeeds and stores the components exactly when all three are in 0..255; otherwise IncorrectRGBValues, and nothing changes. |
| Colors.Color.SetFromArray | src/Entities/Color.php:113-118 | Setting from an array and reading `toArray` back gives the same array, when it is in range. |
| Colors.Color.Rgb | src/Entities/Color.php:168-173 | The same guard and effect as `setValues`. |
| Colors.Color.Black | src/Entities/Color.php:144-147 | The colour becomes (0, 0, 0). |
| Colors.Color.White | src/Entities/Color.php:154-157 | The colour becomes (255, 255, 255). |
| Colors.Color.Hex | src/Entities/Color.php:132-137 | Only the wrong length throws; otherwise the colour becomes the parsed components. |
| ImageTypes.ReplaceByItself | src/Entities/ImageType.php:220-224 | Replacing a string by itself changes nothing, so the `wbmp => wbmp` pair is inert. |
| ImageTypes.ConvertForward | src/Entities/ImageType.php:201-213 | `convert` replaces every "jpg" with "jpeg". |
| ImageTypes.NormaliseWithoutJ | src/Entities/ImageType.php:201-213 | Text without a 'j' is not changed by `convert`. |
| ImageTypes.NormaliseKeepsJ | src/Entities/ImageType.php:201-213 | A 'j' survives `convert`. |
| ImageTypes.NormaliseLength | src/Entities/ImageType.php:201-213 | `convert` never shortens its input. |
| ImageTypes.NormalisedToPlainName | src/Entities/ImageType.php:201-213 | A stored name without 'j' was given exactly. |
| ImageTypes.NormalisedToJpeg | src/Entities/ImageType.php:201-213 | Only "jpg" and "jpeg" become "jpeg". |
| ImageTypes.AvailableTypesAre | src/Entities/ImageType.php:266-269 | A type is available exactly when it is png, gif, jpg, jpeg or wbmp. |
| ImageTypes.ExtensionRoundTrip | src/Entities/ImageType.php:113-117 | Converting a stored type back as an extension ("jpeg" becomes "jpg") and forward again restores it. |
| ImageTypes.NoJpegWithoutJ | src/Entities/ImageType.php:208-212 | Without 'j' there is no "jpeg" to convert back. |
| ImageTypes.AfterLast | src/Entities/ImageType.php:190-195 | The text after the last occurrence of a character does not contain it, and is the whole text when it does not occur. |
| ImageTypes.ExtensionOf | src/Entities/ImageType.php:190-195 | The extension contains neither '.' nor '/'. |
| ImageTypes.ImageType.constructor | src/Entities/ImageType.php:39-42 | `new ImageType` with the default argument holds png. |
| ImageTypes.NewImageType | src/Entities/ImageType.php:39-86 | `new ImageType(t)` treats an empty t as png; an unavailable type throws InvalidImageType and there is no object; otherwise the fresh object holds the converted type, one of the available types. |
| ImageTypes.ImageType.Set | src/Entities/ImageType.php:63-86 | An empty type means png; an unavailable type throws InvalidImageType and keeps the old type; otherwise the converted type is stored, and it is always one of the four available types. |
| ImageTypes.ImageType.SetTypeFromFilename | src/Entities/ImageType.php:126-135 | A missing or unknown extension throws InvalidFileExtension; otherwise the extension's converted type is stored. |
| ImageTypes.ImageType.SetTypeFromExtension | src/Entities/ImageType.php:145-154 | An unknown extension throws InvalidFileExtension and changes nothing; otherwise the type is set as `set` does. |
| ImageTypes.ImageType.GetFunctionName | src/Entities/ImageType.php:163-172 | "image" + type when that function exists, else ImageFunctionUnknown. |
| ImageTypes.HeaderNamesSelectedType | src/Entities/ImageType.php:174-177 | The header is "Content-Type: image/" followed by the stored type itself. |
| Builders.CountedSlots | src/Builder.php:437-439 | The counter steps past the slot at it exactly when that slot has a positive width. |
| Builders.AutoFit | src/Builder.php:527-546 | A chosen version lies in 1..40 and its capacity holds the bits plus its count-field widening. |
| Builders.ChosenVersion | src/Builder.php:508-546 | The recorded version stays in 0..40. |
| Builders.ByteNumberPositive | src/Builder.php:490-493 | Every version 1..40 has a positive byte number. |
| Builders.SymbolOf | src/Builder.php:816-848 | The format step keeps the version and the (17 + 4v) square, and the final mask is in 0..7. |
| Builders.Assemble | src/Builder.php:466-478 | After the terminator, `create` fails exactly when the version's tables do not have the shape of the library's data files (TablesFit), and then only with MalformedTable; a success carries the version and a mask in 0..7. |
| Builders.Widened | src/Builder.php:449-450 | Widening adds the same amount to the count-field slot and to the total, and leaves every other slot alone. |
| Builders.SizedOf | src/Builder.php:437-450 | After counting and version choice, the counter is within the widths and the version in 0..40. |
| Builders.EncodingShaped | src/Builder.php:434-441 | The encoder's results always have the shape `create` indexes, and carry at least the count width in bits. |
| Builders.TotalAtLeast | src/Builder.php:495-506 | A sum of widths is at least each width in it. |
| Builders.OverflowExactly | src/Builder.php:441-464 | `create` overflows exactly when the bits plus the count-field widening exceed the chosen capacity. |
| Builders.HoldsIsCapacity | src/Builder.php:536 | A version holds the data exactly when its capacity covers the bits and its widening. |
| Builders.AutoFitIsSmallest | src/Builder.php:527-546 | The automatic choice is the smallest version that holds the data, and none only when no version does. |
| Builders.NoFitOverflows | src/Builder.php:443-464 | With no version set and none large enough, the capacity is 0 and `create` overflows. |
| Builders.BuildNeedsNoText | src/Builder.php:429-431 | DataDoesNotExists never comes from the later steps. |
| Builders.GetMaskNumber | src/Builder.php:580-585 | The mask chosen by a `Mask` over the grid. |
| Builders.FormatInformation | src/Builder.php:816-848 | The mask chosen on the placed grid selects format word (ecc << 3) \| mask, which is written to the grid. |
| Builders.Finish | src/Builder.php:464-478 | From the terminator on, the result equals the specification: Overflow, a malformed table, or the symbol. |
| Builders.Builder.Ecc | src/Builder.php:615-626 | The level code is the holder's level, in 0..3. |
| Builders.Builder.constructor | src/Builder.php:54-60 | No text, no version, level M, and a manager with no encoder. |
| Builders.Builder.GetText | src/Builder.php:79-82 | Returns the text. |
| Builders.Builder.SetText | src/Builder.php:91-97 | Stores the text and has the manager build a fresh encoder of the text's mode that holds this text, the widths prepared from the structured-append settings, no values and zero counters; the settings and the version are unchanged. |
| Builders.Builder.GetVersion | src/Builder.php:138-141 | Returns the version. |
| Builders.Builder.SetVersion | src/Builder.php:150-157 | The version changes only to a value in 0..40; otherwise it is unchanged. |
| Builders.Builder.GetErrorCorrection | src/Builder.php:304-307 | Returns the holder's level, a code in 0..3. |
| Builders.Builder.SetErrorCorrection | src/Builder.php:316-321 | The level changes only to one of the four codes. |
| Builders.Builder.SetStructureAppend | src/Builder.php:292-297 | All four settings are stored in the manager; the text and an encoder built earlier are unchanged. |
| Builders.Builder.GetEccCharacter | src/Builder.php:615-626 | Returns the level code. |
| Builders.Builder.AutoVersionAndGetMaxDataBits | src/Builder.php:527-546 | Records the first version whose capacity holds the bits plus its widening, and returns that capacity; returns 0 and records nothing when none does. |
| Builders.Builder.GetMaxDataBits | src/Builder.php:508-517 | The capacity of the version set, or of the automatic choice. |
| Builders.Builder.Create | src/Builder.php:427-481 | DataDoesNotExists exactly for empty text. Otherwise the version recorded is the chosen one, and the result is the specified pipeline on the encoder's results: Overflow, a malformed table, or the symbol. |
| Builders.Builder.Size | src/Builder.php:437-450 | Counting the filled slot, fixing the version and capacity and widening the count field give the specified arrays. |

| BuildProof.NumericPrefixWidth | src/Modes/NumericMode.php:32-50 | The first j digit groups take at least 10 bits for every 3 digits they cover. |
| BuildProof.AlphanumericPrefixWidth | src/Modes/AlphanumericMode.php:34-45 | The first j pairs take at least 11 bits for every 2 characters they cover. |
| BuildProof.EightBitPrefixWidth | src/Modes/EightBitMode.php:32-37 | The first j bytes take exactly 8·j bits. |
| BuildProof.PayloadWidthBound | src/Modes/NumericMode.php:26-51 | A payload of n characters takes at least 10/3, 11/2 or 8 bits per character in numeric, alphanumeric or 8-bit mode. |
| BuildProof.PayloadWidthsPositive | src/Modes/NumericMode.php:32-50 | No payload field has width 0. |
| BuildProof.TotalOfWidths | src/Builder.php:495-506 | The total over a head followed by some fields adds those fields' widths. |
| BuildProof.TotalWidened | src/Builder.php:449-450 | Widening one counted slot by d adds d to the total. |
| BuildProof.EncodingCounted | src/Builder.php:437-441 | `create` counts every slot the encoder wrote, and the total holds the whole payload. |
| BuildProof.CountsAll | src/Builder.php:437-439 | A counter on the last of non-empty fields, or past them, is stepped past every slot. |
| BuildProof.TotalHoldsPayload | src/Builder.php:441 | With every slot counted, the total is at least the payload's width. |
| BuildProof.LevelBounds | src/Builder.php:550-570 | Versions 9, 26 and 40 have at most 1856, 10960 and 23648 data bits at every level. |
| BuildProof.CapacityByRange | src/Builder.php:508-570 | A version's capacity is at most the largest of its count-width range (1-9, 10-26, 27-40) and is whole codewords. |
| BuildProof.CountFits | src/Modes/Base/EncodeMode.php:162-199 | A payload that fits version v's capacity has a length below 2 to the power of the count width for v. |
| BuildProof.ChosenCountFits | src/Builder.php:441-450 | Within the chosen version's capacity, the text length fits the widened count field. |
| BuildProof.EncodedSlots | src/Modes/Base/EncodeMode.php:76-97 | The encoder's slots are the prepared values, the mode indicator, the text length, then the payload fields, with nothing past the last slot. |
| BuildProof.StoreBelow | src/Modes/Base/EncodeMode.php:94-97 | Storing the payload leaves the keys below its start as they were. |
| BuildProof.EncodedPayload | src/Modes/Base/EncodeMode.php:94-102 | The payload slots hold the payload's values and widths. |
| BuildProof.StoredPayload | src/Modes/Base/EncodeMode.php:94-102 | Fields stored after the head read back, value and width, at their slots. |
| BuildProof.SlotFits | src/Builder.php:449-450 | Once the count slot is widened to hold the length, every slot laid out as the encoder lays it out holds a value within its width. |
| BuildProof.WidenedSlotsFit | src/Builder.php:449-450 | With the count field widened to hold the text's length, every slot the encoder wrote fits its width. |
| BuildProof.SizedFits | src/Builder.php:437-466 | Counted results that fit once widened: after the terminator, every packed value fits its width and the packed widths fit the data codewords. |
| BuildProof.EncodingIsEncoded | src/Modes/Base/EncodeMode.php:76-87 | The encoder's results on a prepared start are counted, carry the mode's widening table, hold the payload and fit once the count field holds the length. |
| BuildProof.EncodedFits | src/Builder.php:437-466 | For such results and a version of 1 to 40, the fields after the terminator fit their widths and the data codewords. |
| BuildProof.PackedFieldsFit | src/Builder.php:427-468 | For the encoder's results and a version of 1 to 40, the fields `create` packs fit their widths and the data codewords. |
| BuildProof.PreparedBitsFit | src/Modes/ModesManager.php:84-127 | What `setText` prepares, with or without structured append, is a start with room for the indicator and no stored values. |
| BuildProof.TerminatedFits | src/Builder.php:859-877 | A terminator set past written slots that fit keeps every entry within its width and the stream within the whole codewords of the capacity. |
| BuildProof.TerminatedEntriesFit | src/Builder.php:859-877 | The terminator entry is 0 and the written entries are unchanged, so all of them fit. |
| BuildProof.TerminatedWithin | src/Builder.php:859-877 | After the terminator the widths add up to at most 8·(maxDataBits >> 3). |
| BuildProof.FitPacksStream | src/Builder.php:962-1087 | Entries that fit are packed into the data codewords of their stream. |
| BuildProof.CreatePacksDataCodewords | src/Builder.php:427-470 | From what `setText` prepares, every symbol `create` builds for a version of 1 to 40 starts with the data codewords of its bit stream (section 7.4 of ISO/IEC 18004:2015). |
## Left out

- The table files. `qrv<version>_<ecc>.dat` and `rsc<n>.dat` are read with `fopen`/`fread`; here they are the parameters `layouts` and `rsTables`. The `fread` chunk sizes are not modelled. `create` returns MalformedTable whenever the tables do not have the shape of the library's own files (`Builders.TablesFit`): a placement entry for every data module, coordinates and format cells inside the grid, blocks whose data lengths add up to the data codewords, 256 table rows. For such tables the model does not follow what PHP would do: it may grow the grid with new keys, or leave the last block short.
- Image rendering. `createImage` and `colorifyImage` use GD calls. No image is drawn, and the ImageSizeTooLarge check (which depends on the module size) is not modelled. The mask `createImage` recomputes on the final grid is kept as `Symbol.maskNumber`.
- VersionTooLarge. It cannot be raised, because every recorded version is at most 40.
- A version of 0 has no layout file. `create` then fails as Overflow (level M, capacity 0) or as MalformedTable.
- The `QrCode` facade, `helpers.php` and the interfaces: output glue with no logic of the core.
- PHP loose typing. Levels, versions and entries are integers only; `in_array`'s loose comparison and digit strings used as integers are not modelled, and neither is `isVersionNumeric` (a version is always an integer here).
- Masks.Balance: the N4 penalty uses exact rational arithmetic, floor(|100·d − 50·B| / (5·B))·10. PHP's floating-point division may differ exactly at a boundary.
- The regular expressions of the mode managers are character-class predicates. Those of `Mask` are explicit run and occurrence scans over the same byte strings.
- ImageTypes.ExtensionOf: `pathinfo` is approximated as the text after the last '.' of the text after the last '/'.
- ImageTypes.ImageType.GetFunctionName: `function_exists` is a parameter.
- Colors.HexToRgb: the colour string is a sequence of characters, while PHP's `strlen` and `substr` count bytes. A string with a multi-byte character therefore differs: "#éa" has three bytes after the '#', so PHP reads (0, 0, 170), while the model sees two characters and throws InvalidHexValue.
- Colors.Color.Hex: it calls `HexToRgb` and shares its character-versus-byte difference.
- Colors.HexDec: PHP `hexdec` skips non-hexadecimal characters. That is modelled, but the deprecation notice PHP may emit for them is not.
- `getHex` and the test-only colour exceptions: the `Color` class does not implement them.
- Bits: PHP integers are 64-bit. The shifts here are unbounded, which agrees for every value the core produces (codewords below 2^16, entries below 2^16).
- The Builder's image type, colour and module-size fields and their setters belong to rendering and are not modelled.
- Builders.Builder.GetErrorCorrection returns the level code. The letter form that `getEccCharacterHash` maps is modelled separately by Capacity.EccCharacter, because the level holder only ever stores codes.
