# CSVReader in Dafny

A model of `Nieroo\CSVReader\CSVReader`, a small PHP class that reads CSV
files in UTF-8 or CP1251 and returns one record at a time, with every field
converted to UTF-8.

The reader has four pieces of state:
- the open file handle;
- the charset label that content sniffing reports for the file;
- a switch that skips blank lines;
- the error of the last failed load.

`load` opens a file and accepts it only when the label is `utf-8` or
`iso-8859-1`. Otherwise it records `FILE_NOT_LOADED` or
`INCORRECT_FILE_ENCODING` and drops the file.

`getNextRow` loops over the tokenizer's records. When blank-line skipping is
on, it passes over every record that has exactly one field that PHP treats
as false (null, `""` or `"0"`). It returns the first record it keeps, with
every field converted, or null at the end of the file.

`convertToUTF8` turns null into the empty string. When the label is
`iso-8859-1` it converts the bytes from CP1251 to UTF-8. Under any other
label it returns the bytes unchanged.

Files:
- `Wrappers.dfy`: the `Option` type, which stands for PHP's `null`.
- `Utf8.dfy`: UTF-8 as defined by RFC 3629. It has an encoder, a strict
  decoder, and both round trips between them.
- `Cp1251.dfy`: the full Windows-1251 table, its inverse, and the
  conversion from CP1251 to UTF-8.
- `CsvReader.dfy`: module `Csv`. It holds the fields, the conversion, the
  reading order, and the class `CsvReader`.

`Load`, `IgnoreWhiteLines` and `GetNextRow` change the object's fields in
place. The field `file` holds the open file's records and its read position.
`GetNextRow` keeps the source's `while` loop. The loop advances a local copy
of that cursor one record per read and stores it back when the loop ends.
Nothing can observe the file between two reads of one call.

Each call to `GetNextRow` is proved against `Pending()`, the sequence of
records still to be handed out. `Pending()` is defined by the pure function
`Kept`, which is the file's records with skipped ones removed. A call that
returns a record returns `Pending()[0]` converted, and leaves `Pending()[1..]`.
A call that returns None finds `Pending()` empty and leaves it empty, so
every later call returns None as well.

The label `iso-8859-1` selects a conversion from CP1251, not from ISO-8859-1.
This follows `CSVReader.php:173-174`. Content sniffing cannot tell most
single-byte code pages apart, so it can label CP1251 Cyrillic text
`iso-8859-1`. That happens, for example, when the text has no bytes in
0x80..0x9F. The class is written for CP1251 files. The model keeps that
behaviour, and `Csv.IsoLabelConvertsCp1251` pins it down: byte 0xC0 becomes
А (D0 90), not À (C3 80). Which label the sniffer reports for a given file
is outside the model, because the label is a parameter of `Load`.

## Model

| member | source | states |
|---|---|---|
| Csv.CsvReader.constructor | src/Nieroo/CSVReader/CSVReader.php:42-67 | A new reader holds no file, no label and no error, and blank-line skipping is off. |
| Csv.CsvReader.Load | src/Nieroo/CSVReader/CSVReader.php:80-109 | Returns true exactly when the file opened and its label is `utf-8` or `iso-8859-1`. It returns true exactly when no error is recorded afterwards. On success the cursor is at the first record and the label is kept. On failure the file and label are null, and the error is FileNotLoaded when the open failed and IncorrectFileEncoding otherwise. The records still to come are `Kept(records)`, and the reader stays `Valid`. |
| Csv.CsvReader.GetLoadError | src/Nieroo/CSVReader/CSVReader.php:119-122 | Returns the recorded error, which is None after a successful load. |
| Csv.CsvReader.IgnoreWhiteLines | src/Nieroo/CSVReader/CSVReader.php:129-132 | Sets the blank-line switch and changes nothing else. |
| Csv.CsvReader.GetNextRow | src/Nieroo/CSVReader/CSVReader.php:140-160 | Returns None exactly when no kept record remains, and then leaves none. Otherwise it returns the first kept record with every field converted and drops exactly that record from the pending ones. The cursor ends just past the record returned, or at the end of the file. Records, label, switch and error are unchanged. |
| Csv.ConvertToUtf8 | src/Nieroo/CSVReader/CSVReader.php:169-178 | Null becomes the empty string, and under any label other than `iso-8859-1` the bytes come back unchanged. |
| Csv.IsoConversion | src/Nieroo/CSVReader/CSVReader.php:173-174 | Under `iso-8859-1` the output is well-formed UTF-8 and decodes to the CP1251 characters of the input bytes, one per byte. |
| Csv.IsoLabelConvertsCp1251 | src/Nieroo/CSVReader/CSVReader.php:52-55 | Under the `iso-8859-1` label, byte 0xC0 becomes the CP1251 letter А (D0 90) and not the ISO-8859-1 letter À. |
| Csv.PrivetConverts | src/Nieroo/CSVReader/CSVReader.php:173-174 | The CP1251 bytes of "Привет" convert to its UTF-8 bytes. |
| Csv.NextIndex | src/Nieroo/CSVReader/CSVReader.php:144-150 | The loop stops at the first record from the cursor on that is not skipped, or at the end. Every record it passes over is a skipped one. |
| Csv.KeptFrom | src/Nieroo/CSVReader/CSVReader.php:144-156 | The records still to be handed out are the record the loop stops at, followed by those kept after it, or nothing when it reaches the end. |
| Csv.ReadStep | src/Nieroo/CSVReader/CSVReader.php:144-159 | When the loop finds a record, it is the first pending one and the rest follow it. When it finds none, nothing is pending, and nothing is pending at the end either. |
| Csv.DefaultReadsNextRecord | src/Nieroo/CSVReader/CSVReader.php:60 | With blank-line skipping off, the next record read is the one at the cursor. |
| Csv.KeptAll | src/Nieroo/CSVReader/CSVReader.php:145-150 | With blank-line skipping off, every record is handed out, in file order. |
| Csv.KeptMembership | src/Nieroo/CSVReader/CSVReader.php:145-148 | With skipping on, a record is handed out exactly when it is in the file and is not a single falsy field. A record of two or more fields, even empty ones, is always handed out. |
| Csv.KeptAppend | src/Nieroo/CSVReader/CSVReader.php:144-157 | Skipping works record by record: the kept records of two stretches of a file are those of the first followed by those of the second. |
| Csv.BlankLineFile | src/Nieroo/CSVReader/CSVReader.php:145-150 | For the lines "a,b", an empty line and "c,d": with skipping off all three records come out, and with it on only the two others, in order. |
| Cp1251.ToUnicode | src/Nieroo/CSVReader/CSVReader.php:174 | Every byte except 0x98 stands for a Unicode scalar value below U+10000. ASCII maps to itself, and 0xC0..0xFF map to U+0410..U+044F in order. |
| Cp1251.FromToUnicode | src/Nieroo/CSVReader/CSVReader.php:174 | The reverse table recovers every assigned byte. |
| Cp1251.ToFromUnicode | src/Nieroo/CSVReader/CSVReader.php:174 | Every character the reverse table knows maps back to itself. |
| Cp1251.ToUtf8Decodes | src/Nieroo/CSVReader/CSVReader.php:174 | The converted string is well-formed UTF-8 and decodes to the characters of the input bytes. |
| Cp1251.DecodableIff | src/Nieroo/CSVReader/CSVReader.php:174 | A string can be converted exactly when it holds no byte 0x98. |
| Cp1251.ToUtf8Injective | src/Nieroo/CSVReader/CSVReader.php:174 | Two different CP1251 strings never convert to the same UTF-8. |
| Cp1251.ToUtf8Append | src/Nieroo/CSVReader/CSVReader.php:174 | Conversion of a concatenation is the concatenation of the conversions. |
| Cp1251.AsciiUnchanged | src/Nieroo/CSVReader/CSVReader.php:174 | ASCII text converts to itself. |
| Cp1251.CyrillicLetter | src/Nieroo/CSVReader/CSVReader.php:174 | Each letter 0xC0..0xFF becomes two bytes: D0 90..D0 BF for 0xC0..0xEF and D1 80..D1 8F for 0xF0..0xFF. |
| Cp1251.YoLetters | src/Nieroo/CSVReader/CSVReader.php:174 | Ё (0xA8) becomes D0 81, and ё (0xB8) becomes D1 91. |
| Cp1251.ToUtf8Length | src/Nieroo/CSVReader/CSVReader.php:174 | The output is at least as long as the input and at most three times as long. |
| Utf8.DecodeEncode | src/Nieroo/CSVReader/CSVReader.php:174 | Decoding the UTF-8 encoding of scalar values gives them back. |
| Utf8.EncodeDecode | src/Nieroo/CSVReader/CSVReader.php:174 | Well-formed UTF-8 is exactly the encoding of what it decodes to. |
| Utf8.EncodeAppend | src/Nieroo/CSVReader/CSVReader.php:174 | The encoding of a concatenation is the concatenation of the encodings. |

## Left out

- Opening the file and content sniffing are not modelled. `Load` receives their outcomes as parameters: whether `fopen` succeeded, the label `finfo_file` reported (None for `false`), and the records the file holds. The `r+` mode is not modelled.
- CSV tokenizing (`fgetcsv`: delimiters, quoting, line endings) is not modelled. The records it would produce are given, and a blank line is a record of one null field. `Load` requires every record to have at least one field, which is what `fgetcsv` guarantees, so a record read is always truthy in the `while` condition.
- The file handle is never closed, and nothing in the model depends on handles.
- Csv.CsvReader.GetNextRow: requires a loaded file. Calling `fgetcsv` on a null handle raises a TypeError in the source, and the model does not include that error path.
- Csv.CsvReader.GetNextRow: requires that, under `iso-8859-1`, the record it returns holds no byte 0x98. `iconv` rejects that byte (CP1251 leaves it unassigned), and the `string` return type of `convertToUTF8` then raises a TypeError. The model does not include that error path.
- Csv.ConvertToUtf8: requires, under `iso-8859-1`, a field with no byte 0x98. Csv.ConvertRow requires the same of every field. `iconv` rejects that byte, and the source then raises a TypeError, which the model does not include.
- Csv.CsvReader.Load: the exception object kept in `loadError` is reduced to its message, the two-variant `LoadError`.
- Csv.CsvReader.Load: `in_array` compares loosely in the source. For string labels that comparison is plain string equality, which is what the model uses.
- Conversion with `iconv` of encodings other than CP1251 is not modelled, because the source never requests any other.
