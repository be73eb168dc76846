/**
 * A reader of CSV files in UTF-8 or CP1251 that hands out one record at a
 * time, every field converted to UTF-8.
 *
 * What the operating system and the CSV tokenizer would supply is given to
 * the model as values: whether the file could be opened, the charset label
 * the content sniffer reports, and the sequence of records the tokenizer
 * produces from the file.
 */
module Csv {
  import opened Wrappers
  import opened Utf8
  import Cp1251

  /** One field as the tokenizer yields it: its bytes, or None for PHP's null. */
  type Field = Option<Bytes>

  /** One record: its fields in order. */
  type Record = seq<Field>

  /** Why `Load` failed: the message tags of the two exceptions it catches. */
  datatype LoadError = FileNotLoaded | IncorrectFileEncoding

  /** An open file: the records the tokenizer reads from it, and how many it has read. */
  datatype FileCursor = FileCursor(records: seq<Record>, pos: nat)

  /** The labels the content sniffer reports for the two accepted charsets. */
  const Utf8Label: string := "utf-8"
  const IsoLabel: string := "iso-8859-1"

  /** PHP's strval on a field: null becomes the empty string. */
  function StrVal(f: Field): Bytes {
    match f
    case None => []
    case Some(bytes) => bytes
  }

  /** PHP's falsiness of a string or null: null, "" and "0" are false. */
  predicate IsFalsy(f: Field) {
    StrVal(f) == [] || StrVal(f) == ['0' as byte]
  }

  /** A blank record: exactly one field, and that field falsy. */
  predicate IsBlank(r: Record) {
    |r| == 1 && IsFalsy(r[0])
  }

  /** Whether `GetNextRow` passes over `r` under the given blank-line setting. */
  predicate Skipped(r: Record, ignoreWhiteLines: bool) {
    ignoreWhiteLines && IsBlank(r)
  }

  /**
   * What the tokenizer guarantees: every record it produces has at least one
   * field (a blank line is a record of one null field, never an empty one).
   */
  predicate WellTokenized(records: seq<Record>) {
    forall i :: 0 <= i < |records| ==> |records[i]| > 0
  }

  /** The field's bytes can go through the conversion the label selects. */
  predicate Convertible(f: Field, encoding: Option<string>) {
    encoding == Some(IsoLabel) ==> Cp1251.Decodable(StrVal(f))
  }

  predicate RecordConvertible(r: Record, encoding: Option<string>) {
    forall i :: 0 <= i < |r| ==> Convertible(r[i], encoding)
  }

  /**
   * The conversion of one field to UTF-8. Null becomes "". A file labelled
   * 'iso-8859-1' is converted from CP1251, not from ISO-8859-1: the sniffer
   * cannot tell single-byte code pages apart and reports CP1251 Cyrillic text
   * under that label, and the reader is written for CP1251 files. Under any
   * other label the bytes are returned as they are.
   */
  function ConvertToUtf8(inStr: Field, encoding: Option<string>): (outStr: Bytes)
    requires Convertible(inStr, encoding)
    ensures inStr.None? ==> outStr == []
    ensures encoding != Some(IsoLabel) ==> outStr == StrVal(inStr)
  {
    var s := StrVal(inStr);
    if encoding == Some(IsoLabel) then
      assert s == [] ==> Cp1251.ToScalars(s) == [];
      Cp1251.ToUtf8(s)
    else
      s
  }

  /**
   * Under the 'iso-8859-1' label the result is well-formed UTF-8 and spells
   * exactly the characters the CP1251 table gives for the field's bytes.
   */
  lemma IsoConversion(inStr: Field)
    requires Convertible(inStr, Some(IsoLabel))
    ensures var outStr := ConvertToUtf8(inStr, Some(IsoLabel));
      IsValid(outStr) && Decode(outStr) == Some(Cp1251.ToScalars(StrVal(inStr)))
  {
    Cp1251.ToUtf8Decodes(StrVal(inStr));
  }

  /**
   * The label and the code page disagree: a file labelled 'iso-8859-1' has
   * its byte 0xC0 read as the CP1251 letter А (U+0410, D0 90), not as the
   * ISO-8859-1 letter À (U+00C0, C3 80).
   */
  lemma IsoLabelConvertsCp1251()
    ensures Convertible(Some([0xC0]), Some(IsoLabel))
    ensures ConvertToUtf8(Some([0xC0]), Some(IsoLabel)) == [0xD0, 0x90]
    ensures ConvertToUtf8(Some([0xC0]), Some(IsoLabel)) != EncodeScalar(0xC0)
  {
    Cp1251.CyrillicLetter(0xC0);
  }

  /** The CP1251 bytes of "Привет" come out as the UTF-8 bytes of "Привет". */
  lemma PrivetConverts()
    ensures Convertible(Some([0xCF, 0xF0, 0xE8, 0xE2, 0xE5, 0xF2]), Some(IsoLabel))
    ensures ConvertToUtf8(Some([0xCF, 0xF0, 0xE8, 0xE2, 0xE5, 0xF2]), Some(IsoLabel))
         == [0xD0, 0x9F] + ([0xD1, 0x80] + ([0xD0, 0xB8] + ([0xD0, 0xB2] + ([0xD0, 0xB5] + [0xD1, 0x82]))))
  {
    var t: Bytes, u: Bytes := [0xF2], [0xD1, 0x82];  // т
    Cp1251.CyrillicLetter(0xF2);
    Prepend(0xE5, [0xD0, 0xB5], t, u);  // е
    t, u := [0xE5] + t, [0xD0, 0xB5] + u;
    Prepend(0xE2, [0xD0, 0xB2], t, u);  // в
    t, u := [0xE2] + t, [0xD0, 0xB2] + u;
    Prepend(0xE8, [0xD0, 0xB8], t, u);  // и
    t, u := [0xE8] + t, [0xD0, 0xB8] + u;
    Prepend(0xF0, [0xD1, 0x80], t, u);  // р
    t, u := [0xF0] + t, [0xD1, 0x80] + u;
    Prepend(0xCF, [0xD0, 0x9F], t, u);  // П
    t, u := [0xCF] + t, [0xD0, 0x9F] + u;
    assert t == [0xCF, 0xF0, 0xE8, 0xE2, 0xE5, 0xF2];
    assert u == [0xD0, 0x9F] + ([0xD1, 0x80] + ([0xD0, 0xB8] + ([0xD0, 0xB2] + ([0xD0, 0xB5] + [0xD1, 0x82]))));
  }

  /** One step of `PrivetConverts`: a letter put in front of an already converted string. */
  lemma Prepend(b: byte, letter: Bytes, t: Bytes, u: Bytes)
    requires 0xC0 <= b && letter == (if b < 0xF0 then [0xD0, b - 0x30] else [0xD1, b - 0x70])
    requires Cp1251.Decodable(t) && Cp1251.ToUtf8(t) == u
    ensures Cp1251.Decodable([b] + t) && Cp1251.ToUtf8([b] + t) == letter + u
  {
    Cp1251.CyrillicLetter(b);
    Cp1251.ToUtf8Append([b], t);
  }

  /** A record with every field converted, in the same order. */
  function ConvertRow(r: Record, encoding: Option<string>): seq<Bytes>
    requires RecordConvertible(r, encoding)
  {
    seq(|r|, i requires 0 <= i < |r| => ConvertToUtf8(r[i], encoding))
  }

  /**
   * Where the next record to hand out lies when reading starts at `pos`: the
   * first record from `pos` on that is not skipped, or the end.
   */
  function NextIndex(records: seq<Record>, pos: nat, ignoreWhiteLines: bool): (k: nat)
    requires pos <= |records|
    ensures pos <= k <= |records|
    ensures forall j :: pos <= j < k ==> Skipped(records[j], ignoreWhiteLines)
    ensures k < |records| ==> !Skipped(records[k], ignoreWhiteLines)
    decreases |records| - pos
  {
    if pos == |records| then pos
    else if Skipped(records[pos], ignoreWhiteLines) then NextIndex(records, pos + 1, ignoreWhiteLines)
    else pos
  }

  /**
   * Between the cursor and `NextIndex`, a record is skipped exactly when the
   * loop has not reached `NextIndex` yet.
   */
  lemma PassesOverSkipped(records: seq<Record>, pos: nat, at: nat, ignoreWhiteLines: bool)
    requires pos <= at < |records| && at <= NextIndex(records, pos, ignoreWhiteLines)
    ensures Skipped(records[at], ignoreWhiteLines) <==> at < NextIndex(records, pos, ignoreWhiteLines)
  {
  }

  /** The records that are handed out, in order: those not skipped. */
  function Kept(records: seq<Record>, ignoreWhiteLines: bool): (kept: seq<Record>)
    ensures |kept| <= |records|
  {
    if records == [] then []
    else (if Skipped(records[0], ignoreWhiteLines) then [] else [records[0]])
         + Kept(records[1..], ignoreWhiteLines)
  }

  /** The records still to be handed out start at `NextIndex`, or there are none. */
  lemma {:induction false} KeptFrom(records: seq<Record>, pos: nat, ignoreWhiteLines: bool)
    requires pos <= |records|
    ensures var k := NextIndex(records, pos, ignoreWhiteLines);
      Kept(records[pos..], ignoreWhiteLines) ==
        if k < |records| then [records[k]] + Kept(records[k + 1..], ignoreWhiteLines) else []
    decreases |records| - pos
  {
    if pos < |records| {
      var rest := records[pos..];
      assert rest[0] == records[pos] && rest[1..] == records[pos + 1..];
      if Skipped(records[pos], ignoreWhiteLines) {
        assert Kept(rest, ignoreWhiteLines) == Kept(records[pos + 1..], ignoreWhiteLines);
        assert NextIndex(records, pos, ignoreWhiteLines) == NextIndex(records, pos + 1, ignoreWhiteLines);
        KeptFrom(records, pos + 1, ignoreWhiteLines);
      } else {
        assert NextIndex(records, pos, ignoreWhiteLines) == pos;
      }
    }
  }

  /**
   * One read, seen on the records still to be handed out: when `NextIndex`
   * finds a record, it is the first of them and the rest follow it; when it
   * finds none, there are none, and a read from the end finds none either.
   */
  lemma ReadStep(records: seq<Record>, pos: nat, ignoreWhiteLines: bool)
    requires pos <= |records|
    ensures var k := NextIndex(records, pos, ignoreWhiteLines);
      var before := Kept(records[pos..], ignoreWhiteLines);
      if k < |records|
      then before != [] && before[0] == records[k] && Kept(records[k + 1..], ignoreWhiteLines) == before[1..]
      else before == [] && Kept(records[|records|..], ignoreWhiteLines) == []
  {
    var k := NextIndex(records, pos, ignoreWhiteLines);
    KeptFrom(records, pos, ignoreWhiteLines);
    if k == |records| {
      assert records[|records|..] == [];
    }
  }

  /** With blank-line skipping off, the next record is the one at the cursor. */
  lemma DefaultReadsNextRecord(records: seq<Record>, pos: nat)
    requires pos < |records|
    ensures NextIndex(records, pos, false) == pos
  {
  }

  /** With blank-line skipping off every record is handed out, in order. */
  lemma {:induction false} KeptAll(records: seq<Record>)
    ensures Kept(records, false) == records
  {
    if records != [] {
      KeptAll(records[1..]);
      assert records == [records[0]] + records[1..];
    }
  }

  /**
   * With blank-line skipping on, a record is handed out exactly when it is in
   * the file and is not blank; in particular a record of two or more fields
   * always is, even if every field is empty.
   */
  lemma {:induction false} KeptMembership(records: seq<Record>, r: Record)
    ensures r in Kept(records, true) <==> r in records && !IsBlank(r)
  {
    if records != [] {
      KeptMembership(records[1..], r);
      assert records == [records[0]] + records[1..];
    }
  }

  /** Skipping keeps the order of the records it does not drop. */
  lemma {:induction false} KeptAppend(a: seq<Record>, b: seq<Record>, ignoreWhiteLines: bool)
    ensures Kept(a + b, ignoreWhiteLines) == Kept(a, ignoreWhiteLines) + Kept(b, ignoreWhiteLines)
  {
    if a == [] {
      assert a + b == b;
    } else {
      assert (a + b)[0] == a[0] && (a + b)[1..] == a[1..] + b;
      KeptAppend(a[1..], b, ignoreWhiteLines);
    }
  }

  /**
   * The reader. Its state is the open file (None when no file is loaded), the
   * charset label detected for it, the blank-line setting and the error of
   * the last failed load.
   */
  class CsvReader {
    var file: Option<FileCursor>
    var fileEncoding: Option<string>
    const fileEncodings: seq<string> := [Utf8Label, IsoLabel]
    var ignoreWhiteLines: bool
    var loadError: Option<LoadError>

    /**
     * A file and its label are present together, the label is an accepted
     * one, and a reader that holds an error holds no file.
     */
    ghost predicate Valid()
      reads this
    {
      && (file.Some? <==> fileEncoding.Some?)
      && (file.Some? ==>
            && file.value.pos <= |file.value.records|
            && WellTokenized(file.value.records)
            && fileEncoding.value in fileEncodings)
      && (loadError.Some? ==> file.None?)
    }

    /** The records the cursor has yet to hand out, under the current setting. */
    ghost function Pending(): seq<Record>
      reads this
      requires Valid() && file.Some?
    {
      Kept(file.value.records[file.value.pos..], ignoreWhiteLines)
    }

    /** A new reader holds no file and no error, and does not skip blank lines. */
    constructor ()
      ensures Valid()
      ensures file.None? && fileEncoding.None? && !ignoreWhiteLines && loadError.None?
    {
      file := None;
      fileEncoding := None;
      ignoreWhiteLines := false;
      loadError := None;
    }

    /**
     * Loads a file. `fileOpened` says whether the file could be opened, `detected`
     * is the charset label the sniffer reports (None when it reports
     * nothing), and `records` is what the tokenizer reads from the file.
     */
    method Load(fileOpened: bool, detected: Option<string>, records: seq<Record>) returns (ok: bool)
      requires WellTokenized(records)
      modifies this
      ensures Valid()
      ensures ok <==> loadError.None?
      ensures ok <==> fileOpened && detected.Some? && detected.value in fileEncodings
      ensures ok ==> file == Some(FileCursor(records, 0)) && fileEncoding == detected
      ensures ok ==> Pending() == Kept(records, ignoreWhiteLines)
      ensures !ok ==> file.None? && fileEncoding.None?
      ensures !fileOpened ==> loadError == Some(FileNotLoaded)
      ensures fileOpened && !ok ==> loadError == Some(IncorrectFileEncoding)
      ensures ignoreWhiteLines == old(ignoreWhiteLines)
    {
      loadError := None;
      if !fileOpened {
        loadError := Some(FileNotLoaded);
        file := None;
        fileEncoding := None;
        return false;
      }
      file := Some(FileCursor(records, 0));
      fileEncoding := detected;
      if !(detected.Some? && detected.value in fileEncodings) {
        loadError := Some(IncorrectFileEncoding);
        file := None;
        fileEncoding := None;
        return false;
      }
      assert records[0..] == records;
      return true;
    }

    /** The error of the last load: None after a successful one or before any. */
    method GetLoadError() returns (e: Option<LoadError>)
      ensures e == loadError
    {
      e := loadError;
    }

    /** Turns blank-line skipping on or off for the reads that follow. */
    method IgnoreWhiteLines(ignoreWL: bool)
      requires Valid()
      modifies this
      ensures Valid()
      ensures ignoreWhiteLines == ignoreWL
      ensures file == old(file) && fileEncoding == old(fileEncoding) && loadError == old(loadError)
    {
      ignoreWhiteLines := ignoreWL;
    }

    /**
     * The next record, converted to UTF-8, or None at the end of the file.
     * Records are read forward only; with blank-line skipping on, blank
     * records are passed over without ending the read.
     */
    method GetNextRow() returns (data: Option<seq<Bytes>>)
      requires Valid() && file.Some?
      requires Pending() != [] ==> RecordConvertible(Pending()[0], fileEncoding)
      modifies this
      ensures Valid() && file.Some? && file.value.records == old(file.value.records)
      ensures fileEncoding == old(fileEncoding) && ignoreWhiteLines == old(ignoreWhiteLines)
      ensures loadError == old(loadError)
      ensures var k := NextIndex(file.value.records, old(file.value.pos), ignoreWhiteLines);
        if k < |file.value.records| then data.Some? && file.value.pos == k + 1
        else data.None? && file.value.pos == |file.value.records|
      ensures old(Pending()) == [] ==> data.None? && Pending() == []
      ensures old(Pending()) != [] ==>
        data == Some(ConvertRow(old(Pending())[0], fileEncoding)) && Pending() == old(Pending())[1..]
    {
      var cursor := file.value;
      ghost var records := cursor.records;
      ghost var k := NextIndex(records, cursor.pos, ignoreWhiteLines);
      ReadStep(records, cursor.pos, ignoreWhiteLines);
      data := None;
      while cursor.pos < |cursor.records|
        invariant cursor.records == records
        invariant old(file.value.pos) <= cursor.pos <= k
        invariant data.None?
        decreases |cursor.records| - cursor.pos
      {
        var rowData := cursor.records[cursor.pos];
        ghost var at := cursor.pos;
        cursor := FileCursor(cursor.records, cursor.pos + 1);
        if ignoreWhiteLines && |rowData| == 1 && IsFalsy(rowData[0]) {
          assert at < k by {
            PassesOverSkipped(records, old(file.value.pos), at, ignoreWhiteLines);
          }
          continue;
        }
        assert at == k by {
          PassesOverSkipped(records, old(file.value.pos), at, ignoreWhiteLines);
        }
        data := Some(ConvertRow(rowData, fileEncoding));
        break;
      }
      file := Some(cursor);
    }
  }

  /**
   * The file with lines "a,b", "" and "c,d": with blank-line skipping off all
   * three records are handed out, the blank line as a record of one null
   * field; with it on, the two others, in order.
   */
  lemma BlankLineFile(ab: Record, cd: Record)
    requires |ab| == 2 && |cd| == 2
    ensures Kept([ab, [None], cd], false) == [ab, [None], cd]
    ensures Kept([ab, [None], cd], true) == [ab, cd]
  {
    var blank: Record := [None];
    assert IsBlank(blank) && !IsBlank(ab) && !IsBlank(cd);
    assert [ab, blank, cd] == [ab] + [blank] + [cd];
    KeptAppend([ab] + [blank], [cd], false);
    KeptAppend([ab], [blank], false);
    KeptAppend([ab] + [blank], [cd], true);
    KeptAppend([ab], [blank], true);
    assert Kept([ab], true) == [ab] by { assert [ab][1..] == []; }
    assert Kept([blank], true) == [] by { assert [blank][1..] == []; }
    assert Kept([cd], true) == [cd] by { assert [cd][1..] == []; }
    assert Kept([ab], false) == [ab] by { assert [ab][1..] == []; }
    assert Kept([blank], false) == [blank] by { assert [blank][1..] == []; }
    assert Kept([cd], false) == [cd] by { assert [cd][1..] == []; }
  }
}
