/**
 * The fold table: build.rs writes one fixed-size record per code point, and
 * `lower_no_accent_char` reads record `c` back. A record is a length byte, the
 * UTF-8 bytes of the entry, then zero padding.
 */
module FoldTable {
  import opened Wrappers
  import opened Unicode
  import SeqUtil
  import Utf8

  type Byte = Utf8.Byte

  const RecordSize: nat := 10
  /** One record for every value of 0..=char::MAX. */
  const RecordCount: nat := 0x110000
  const TableSize: nat := RecordSize * RecordCount

  /** The filter of the build: a char is kept when it is ASCII or alphanumeric. */
  predicate Kept(u: CharData, c: char) {
    IsAscii(c) || u.isAlphanumeric(c)
  }

  /** The entry of `c`: lowercase, then canonical decomposition, then the filter, in order. */
  function LowerNoAccent(u: CharData, c: char): seq<char> {
    SeqUtil.Filter(x => Kept(u, x), u.nfd(u.toLower(c)))
  }

  /** The entry for a table index; values that are not scalar values (surrogates) get none. */
  function Entry(u: CharData, index: nat): seq<char> {
    if Utf8.IsScalarValue(index) then LowerNoAccent(u, index as char) else []
  }

  function Zeros(n: nat): (z: seq<Byte>)
    ensures |z| == n && forall i :: 0 <= i < n ==> z[i] == 0
  {
    if n == 0 then [] else [0] + Zeros(n - 1)
  }

  /** Layout of one record: the payload length, the payload, zero padding. */
  function Record(payload: seq<Byte>): (r: seq<Byte>)
    requires |payload| < RecordSize
    ensures |r| == RecordSize
  {
    [|payload|] + payload + Zeros(RecordSize - 1 - |payload|)
  }

  /** The build fails (build.rs panics) on the first entry whose UTF-8 does not fit a record. */
  datatype BuildError = EntryTooLong(index: nat)

  /** `t` holds, at byte `RecordSize * i`, the record of the entry of every `i`. */
  ghost predicate IsTableOf(u: CharData, t: seq<Byte>) {
    && |t| == TableSize
    && forall i :: 0 <= i < RecordCount ==>
         && |Utf8.Encode(Entry(u, i))| < RecordSize
         && t[RecordSize * i .. RecordSize * i + RecordSize] == Record(Utf8.Encode(Entry(u, i)))
  }

  /**
   * The loop of build.rs: for every index, clear the scratch string, push the kept
   * chars of the decomposed lowercase, and append the record to the output.
   */
  method BuildTable(u: CharData) returns (r: Result<seq<Byte>, BuildError>)
    ensures r.Ok? ==> IsTableOf(u, r.value)
    ensures r.Err? ==>
      && r.error.index < RecordCount
      && |Utf8.Encode(Entry(u, r.error.index))| >= RecordSize
      && forall i :: 0 <= i < r.error.index ==> |Utf8.Encode(Entry(u, i))| < RecordSize
  {
    var out: seq<Byte> := [];
    var index: nat := 0;
    while index < RecordCount
      invariant index <= RecordCount
      invariant |out| == RecordSize * index
      invariant forall i :: 0 <= i < index ==>
        && |Utf8.Encode(Entry(u, i))| < RecordSize
        && out[RecordSize * i .. RecordSize * i + RecordSize] == Record(Utf8.Encode(Entry(u, i)))
    {
      var chars := EntryChars(u, index);
      var bytes := Utf8.Encode(chars);
      // `try_into().expect("u8")` and the slice `buf[1..len + 1]` both panic beyond this.
      if |bytes| >= RecordSize {
        return Err(EntryTooLong(index));
      }
      var buf := RecordBytes(bytes);
      AppendRecord(u, out, buf, index);
      out := out + buf;
      index := index + 1;
    }
    r := Ok(out);
  }

  /** One step of build.rs: the scratch string cleared, then filled with the kept chars. */
  method EntryChars(u: CharData, index: nat) returns (chars: seq<char>)
    ensures chars == Entry(u, index)
  {
    chars := [];
    if Utf8.IsScalarValue(index) {
      var decomposed := u.nfd(u.toLower(index as char));
      var k := 0;
      while k < |decomposed|
        invariant k <= |decomposed|
        invariant chars == SeqUtil.Filter(x => Kept(u, x), decomposed[..k])
      {
        assert decomposed[..k + 1] == decomposed[..k] + [decomposed[k]];
        SeqUtil.FilterAppend(x => Kept(u, x), decomposed[..k], [decomposed[k]]);
        if Kept(u, decomposed[k]) {
          chars := chars + [decomposed[k]];
        }
        k := k + 1;
      }
      assert decomposed[..k] == decomposed;
    }
  }

  /** The zeroed 10-byte buffer with the length byte and the payload copied in. */
  method RecordBytes(bytes: seq<Byte>) returns (record: seq<Byte>)
    requires |bytes| < RecordSize
    ensures record == Record(bytes)
  {
    var buf := new Byte[RecordSize](_ => 0);
    buf[0] := |bytes|;
    var j := 0;
    while j < |bytes|
      invariant j <= |bytes|
      invariant buf[0] == |bytes|
      invariant forall m :: 0 <= m < j ==> buf[1 + m] == bytes[m]
      invariant forall m :: 1 + j <= m < RecordSize ==> buf[m] == 0
    {
      buf[1 + j] := bytes[j];
      j := j + 1;
    }
    record := buf[..];
  }

  /** Appending the record of `index` keeps the earlier records where they were. */
  lemma AppendRecord(u: CharData, out: seq<Byte>, record: seq<Byte>, index: nat)
    requires |out| == RecordSize * index
    requires forall i :: 0 <= i < index ==>
      && |Utf8.Encode(Entry(u, i))| < RecordSize
      && out[RecordSize * i .. RecordSize * i + RecordSize] == Record(Utf8.Encode(Entry(u, i)))
    requires |Utf8.Encode(Entry(u, index))| < RecordSize
    requires record == Record(Utf8.Encode(Entry(u, index)))
    ensures forall i :: 0 <= i < index + 1 ==>
      && |Utf8.Encode(Entry(u, i))| < RecordSize
      && (out + record)[RecordSize * i .. RecordSize * i + RecordSize] == Record(Utf8.Encode(Entry(u, i)))
  {
    forall i | 0 <= i < index + 1
      ensures (out + record)[RecordSize * i .. RecordSize * i + RecordSize] == Record(Utf8.Encode(Entry(u, i)))
    {
      if i < index {
        assert RecordSize * i + RecordSize <= |out|;
        assert (out + record)[RecordSize * i .. RecordSize * i + RecordSize] == out[RecordSize * i .. RecordSize * i + RecordSize];
      } else {
        assert (out + record)[RecordSize * i .. RecordSize * i + RecordSize] == record;
      }
    }
  }

  /** The payload bytes `[10c + 1, 10c + 1 + len)` of record `c`, `len` being its first byte. */
  function Payload(table: seq<Byte>, c: char): seq<Byte>
    requires RecordSize * (c as int) < |table|
    requires RecordSize * (c as int) + 1 + table[RecordSize * (c as int)] <= |table|
  {
    var index := RecordSize * (c as int);
    table[index + 1 .. index + 1 + table[index]]
  }

  /**
   * `lower_no_accent_char`: decode the payload of record `c`. The requires are what its
   * unchecked reads demand: the slice is inside the table and holds valid UTF-8.
   */
  function LowerNoAccentChar(table: seq<Byte>, c: char): seq<char>
    requires RecordSize * (c as int) < |table|
    requires RecordSize * (c as int) + 1 + table[RecordSize * (c as int)] <= |table|
    requires Utf8.Decode(Payload(table, c)).Some?
  {
    Utf8.Decode(Payload(table, c)).value
  }

  /**
   * Round trip: in a table written by BuildTable, the read of record `c` is in bounds,
   * stays inside that record, and decodes to exactly the entry encoded for `c`.
   */
  lemma TableRoundTrip(u: CharData, t: seq<Byte>, c: char)
    requires IsTableOf(u, t)
    ensures RecordSize * (c as int) + 1 + t[RecordSize * (c as int)] <= RecordSize * (c as int) + RecordSize <= |t|
    ensures Utf8.Decode(Payload(t, c)).Some?
    ensures LowerNoAccentChar(t, c) == LowerNoAccent(u, c)
  {
    PayloadIsEncoding(u, t, c);
    Utf8.DecodeEncode(LowerNoAccent(u, c));
  }

  /** The payload of record `c` is in bounds, inside the record, and is the UTF-8 of the entry of `c`. */
  lemma PayloadIsEncoding(u: CharData, t: seq<Byte>, c: char)
    requires IsTableOf(u, t)
    ensures RecordSize * (c as int) + 1 + t[RecordSize * (c as int)] <= RecordSize * (c as int) + RecordSize <= |t|
    ensures Payload(t, c) == Utf8.Encode(LowerNoAccent(u, c))
  {
    var i := c as int;
    var base := RecordSize * i;
    assert Entry(u, i) == LowerNoAccent(u, c) by {
      assert Utf8.IsScalarValue(i);
      assert (i as char) == c;
    }
    var bytes := Utf8.Encode(Entry(u, i));
    RecordAt(u, t, i);
    var record := t[base .. base + RecordSize];
    assert t[base] == record[0] == |bytes|;
    forall m | 0 <= m < |bytes| ensures Payload(t, c)[m] == bytes[m] {
      assert Payload(t, c)[m] == t[base + 1 + m] == record[1 + m];
    }
  }

  lemma RecordAt(u: CharData, t: seq<Byte>, i: nat)
    requires IsTableOf(u, t) && i < RecordCount
    ensures RecordSize * i + RecordSize <= |t|
    ensures |Utf8.Encode(Entry(u, i))| < RecordSize
    ensures t[RecordSize * i .. RecordSize * i + RecordSize] == Record(Utf8.Encode(Entry(u, i)))
  {
  }

  /** Records of values that are not scalar values are all zero: length 0, no payload. */
  lemma SurrogateRecordIsZero(u: CharData, t: seq<Byte>, index: nat)
    requires IsTableOf(u, t)
    requires index < RecordCount && !Utf8.IsScalarValue(index)
    ensures forall m :: RecordSize * index <= m < RecordSize * index + RecordSize ==> t[m] == 0
  {
    var record := t[RecordSize * index .. RecordSize * index + RecordSize];
    assert Entry(u, index) == [] && Utf8.Encode([]) == [];
    assert record == Record([]);
    forall m | RecordSize * index <= m < RecordSize * index + RecordSize
      ensures t[m] == 0
    {
      assert t[m] == record[m - RecordSize * index];
    }
  }

  /** An ASCII char folds to its ASCII lowercase, alone. */
  lemma AsciiFold(u: CharData, c: char)
    requires AsciiConforming(u) && IsAscii(c)
    ensures LowerNoAccent(u, c) == [AsciiToLower(c)]
  {
    var l := AsciiToLower(c);
    assert u.toLower(c) == [l];
    assert AllAscii([l]);
    assert u.nfd([l]) == [l];
    assert Kept(u, l);
    assert SeqUtil.Filter(x => Kept(u, x), [l]) == [l];
  }
}
