/** The ZIP writer of validate-doc-extractor.ts and a reader for the format of section 4.3.7 of PKWARE APPNOTE.TXT. */
module ZipWriter {
  import opened Text

  type Byte = x: int | 0 <= x < 256 witness 0
  type Bytes = seq<Byte>

  /** A name and its content, both already bytes. */
  datatype Entry = Entry(name: Bytes, content: Bytes)

  datatype Result<+T> = Ok(value: T) | RangeError

  const SIGNATURE := 0x04034b50
  const HEADER := 30
  const U16 := 0x1_0000
  const U32 := 0x1_0000_0000

  // ---------------------------------------------------------------- integers in bytes

  /** The `n` low bytes of `v`, the lowest first. */
  function LittleEndian(v: nat, n: nat): (b: Bytes)
    ensures |b| == n
  {
    if n == 0 then [] else [v % 256] + LittleEndian(v / 256, n - 1)
  }

  function ReadLE(b: Bytes): nat {
    if b == [] then 0 else b[0] + 256 * ReadLE(b[1..])
  }

  function Pow256(n: nat): nat {
    if n == 0 then 1 else 256 * Pow256(n - 1)
  }

  lemma {:induction false} ReadLittleEndian(v: nat, n: nat)
    requires v < Pow256(n)
    ensures ReadLE(LittleEndian(v, n)) == v
  {
    if n > 0 {
      ReadLittleEndian(v / 256, n - 1);
      assert LittleEndian(v, n)[1..] == LittleEndian(v / 256, n - 1);
    }
  }

  // ---------------------------------------------------------------- the writer

  /** The local file header the writer fills in: every field of the format, in order. */
  function Header(nameLength: nat, compressed: nat, uncompressed: nat): (h: Bytes)
    ensures |h| == HEADER
  {
    LittleEndian(SIGNATURE, 4) + LittleEndian(20, 2) + LittleEndian(0, 2) + LittleEndian(8, 2)
    + LittleEndian(0, 2) + LittleEndian(0, 2) + LittleEndian(0, 4) + LittleEndian(compressed, 4)
    + LittleEndian(uncompressed, 4) + LittleEndian(nameLength, 2) + LittleEndian(0, 2)
  }

  function Member(e: Entry, deflate: Bytes -> Bytes): Bytes {
    Header(|e.name|, |deflate(e.content)|, |e.content|) + e.name + deflate(e.content)
  }

  function Archive(entries: seq<Entry>, deflate: Bytes -> Bytes): Bytes {
    if entries == [] then [] else Archive(entries[..|entries| - 1], deflate) + Member(entries[|entries| - 1], deflate)
  }

  /** What `writeUInt16LE` and `writeUInt32LE` accept. */
  predicate Fits(e: Entry, deflate: Bytes -> Bytes) {
    |e.name| < U16 && |deflate(e.content)| < U32 && |e.content| < U32
  }

  /** `writeUIntLE` on a buffer, in place; it throws when the value does not fit. */
  method WriteUIntLE(buf: array<Byte>, v: nat, offset: nat, width: nat) returns (ok: bool)
    requires offset + width <= buf.Length
    modifies buf
    ensures ok <==> v < Pow256(width)
    ensures ok ==> buf[..] == old(buf[..offset]) + LittleEndian(v, width) + old(buf[offset + width..])
    ensures !ok ==> buf[..] == old(buf[..])
  {
    if v >= Pow256(width) {
      return false;
    }
    ok := true;
    var rest := v;
    assert buf[..] == buf[..offset] + buf[offset..];
    for i := 0 to width
      invariant rest >= 0
      invariant buf[..offset + i] + LittleEndian(rest, width - i) == old(buf[..offset]) + LittleEndian(v, width)
      invariant buf[offset + i..] == old(buf[offset + i..])
    {
      ghost var before := buf[..offset + i];
      buf[offset + i] := rest % 256;
      assert buf[..offset + i] == before;
      assert buf[..offset + i + 1] == before + [rest % 256];
      assert before + LittleEndian(rest, width - i) ==
          (before + [rest % 256]) + LittleEndian(rest / 256, width - i - 1);
      rest := rest / 256;
    }
    assert buf[..offset + width] + [] == buf[..offset + width];
    assert buf[..] == buf[..offset + width] + buf[offset + width..];
  }

  /** `createMockZipBuffer`: one header buffer per entry, then the name and the deflated content. */
  method CreateZip(entries: seq<Entry>, deflate: Bytes -> Bytes) returns (r: Result<Bytes>)
    ensures r == if forall i :: 0 <= i < |entries| ==> Fits(entries[i], deflate) then Ok(Archive(entries, deflate))
                 else RangeError
  {
    hide Header, LittleEndian;
    var buffer: Bytes := [];
    for k := 0 to |entries|
      invariant buffer == Archive(entries[..k], deflate)
      invariant forall i :: 0 <= i < k ==> Fits(entries[i], deflate)
    {
      var e := entries[k];
      var compData := deflate(e.content);
      var header := FillHeader(|e.name|, |compData|, |e.content|);
      if header.RangeError? {
        assert !Fits(entries[k], deflate);
        return RangeError;
      }
      assert entries[..k + 1][..k] == entries[..k];
      buffer := buffer + (header.value + e.name + compData);
    }
    assert entries[..|entries|] == entries;
    return Ok(buffer);
  }

  method FillHeader(nameLength: nat, compressed: nat, uncompressed: nat) returns (r: Result<Bytes>)
    ensures r == if nameLength < U16 && compressed < U32 && uncompressed < U32
                 then Ok(Header(nameLength, compressed, uncompressed))
                 else RangeError
  {
    hide LittleEndian, Pow256;
    Widths();
    var header := new Byte[HEADER](_ => 0);
    var ok := WriteField(header, SIGNATURE, 0, 4, []);
    ok := WriteField(header, 20, 4, 2, LittleEndian(SIGNATURE, 4));
    ghost var front := LittleEndian(SIGNATURE, 4) + LittleEndian(20, 2);
    ok := WriteField(header, 0, 6, 2, front);
    front := front + LittleEndian(0, 2);
    ok := WriteField(header, 8, 8, 2, front);
    front := front + LittleEndian(8, 2);
    ok := WriteField(header, 0, 10, 2, front);
    front := front + LittleEndian(0, 2);
    ok := WriteField(header, 0, 12, 2, front);
    front := front + LittleEndian(0, 2);
    ok := WriteField(header, 0, 14, 4, front);
    front := front + LittleEndian(0, 4);
    ok := WriteField(header, compressed, 18, 4, front);
    if !ok {
      return RangeError;
    }
    front := front + LittleEndian(compressed, 4);
    ok := WriteField(header, uncompressed, 22, 4, front);
    if !ok {
      return RangeError;
    }
    front := front + LittleEndian(uncompressed, 4);
    ok := WriteField(header, nameLength, 26, 2, front);
    if !ok {
      return RangeError;
    }
    front := front + LittleEndian(nameLength, 2);
    ok := WriteField(header, 0, 28, 2, front);
    assert header[..30] == header[..];
    return Ok(header[..]);
  }

  /** One field behind the fields already there. */
  method WriteField(header: array<Byte>, v: nat, offset: nat, width: nat, ghost front: Bytes) returns (ok: bool)
    requires offset + width <= header.Length && header[..offset] == front
    modifies header
    ensures ok <==> v < Pow256(width)
    ensures ok ==> header[..offset + width] == front + LittleEndian(v, width)
  {
    hide LittleEndian, Pow256;
    ok := WriteUIntLE(header, v, offset, width);
    if ok {
      assert header[..offset + width] == (front + LittleEndian(v, width))[..offset + width];
    }
  }

  lemma Widths()
    ensures Pow256(2) == U16 && Pow256(4) == U32
  {
    assert Pow256(1) == 256;
    assert Pow256(3) == 256 * 256 * 256;
  }

  // ---------------------------------------------------------------- the reader

  /** The little-endian field of `width` bytes at `offset`. */
  function Field(b: Bytes, offset: nat, width: nat): nat
    requires offset + width <= |b|
  {
    ReadLE(b[offset..offset + width])
  }

  /** A local file header, field by field as section 4.3.7 lists them. */
  datatype Fields = Fields(
    signature: nat, version: nat, flags: nat, compression: nat, time: nat, date: nat, crc: nat,
    compressed: nat, uncompressed: nat, nameLength: nat, extraLength: nat)

  function ReadFields(b: Bytes): Fields
    requires |b| >= HEADER
  {
    Fields(Field(b, 0, 4), Field(b, 4, 2), Field(b, 6, 2), Field(b, 8, 2), Field(b, 10, 2), Field(b, 12, 2),
           Field(b, 14, 4), Field(b, 18, 4), Field(b, 22, 4), Field(b, 26, 2), Field(b, 28, 2))
  }

  /** Reads members one after the other, each sized by its own header: DEFLATE only, no data descriptor. */
  function ReadArchive(b: Bytes, inflate: Bytes -> Option<Bytes>): Option<seq<Entry>>
    decreases |b|
  {
    if b == [] then Some([])
    else if |b| < HEADER then None
    else
      var f := ReadFields(b);
      var dataAt := HEADER + f.nameLength + f.extraLength;
      var next := dataAt + f.compressed;
      if f.signature != SIGNATURE || f.compression != 8 || f.flags / 8 % 2 != 0 || next > |b| then None
      else
        match inflate(b[dataAt..next])
        case None => None
        case Some(content) =>
          if |content| != f.uncompressed then None
          else
            match ReadArchive(b[next..], inflate)
            case None => None
            case Some(rest) => Some([Entry(b[HEADER..HEADER + f.nameLength], content)] + rest)
  }

  lemma FieldIs(b: Bytes, before: Bytes, v: nat, width: nat, after: Bytes)
    requires b == before + LittleEndian(v, width) + after && v < Pow256(width)
    ensures Field(b, |before|, width) == v
  {
    hide LittleEndian, Pow256, ReadLE;
    assert b[|before|..|before| + width] == LittleEndian(v, width);
    ReadLittleEndian(v, width);
  }

  /** Whatever follows, the reader sees the very numbers the writer put in the header. */
  lemma HeaderReadsBack(nameLength: nat, compressed: nat, uncompressed: nat, tail: Bytes)
    requires nameLength < U16 && compressed < U32 && uncompressed < U32
    ensures ReadFields(Header(nameLength, compressed, uncompressed) + tail)
         == Fields(SIGNATURE, 20, 0, 8, 0, 0, 0, compressed, uncompressed, nameLength, 0)
  {
    hide LittleEndian, Pow256, Field;
    Widths();
    var b := Header(nameLength, compressed, uncompressed) + tail;
    FieldIs(b, b[..0], SIGNATURE, 4, b[4..]);
    FieldIs(b, b[..4], 20, 2, b[6..]);
    FieldIs(b, b[..6], 0, 2, b[8..]);
    FieldIs(b, b[..8], 8, 2, b[10..]);
    FieldIs(b, b[..10], 0, 2, b[12..]);
    FieldIs(b, b[..12], 0, 2, b[14..]);
    FieldIs(b, b[..14], 0, 4, b[18..]);
    FieldIs(b, b[..18], compressed, 4, b[22..]);
    FieldIs(b, b[..22], uncompressed, 4, b[26..]);
    FieldIs(b, b[..26], nameLength, 2, b[28..]);
    FieldIs(b, b[..28], 0, 2, b[30..]);
  }

  /** The bytes a header begins with: the signature `PK`, 3, 4, version 2.0, no flags, DEFLATE, and no time, date or
      checksum. */
  lemma HeaderStarts(nameLength: nat, compressed: nat, uncompressed: nat)
    ensures var h := Header(nameLength, compressed, uncompressed);
            && h[0] == 0x50 && h[1] == 0x4b && h[2] == 3 && h[3] == 4 && h[4] == 20 && h[8] == 8
            && forall i :: 5 <= i < 18 && i != 8 ==> h[i] == 0
  {
    SmallBytes(20);
    SmallBytes(0);
    SmallBytes(8);
    SignatureBytes();
    FourZeros();
    hide LittleEndian;
  }

  lemma SmallBytes(v: nat)
    requires v < 256
    ensures LittleEndian(v, 2) == [v, 0]
  {
    assert LittleEndian(0, 0) == [] && LittleEndian(0, 1) == [0];
  }

  lemma FourZeros()
    ensures LittleEndian(0, 4) == [0, 0, 0, 0] && LittleEndian(0, 2) == [0, 0]
  {
    assert LittleEndian(0, 1) == [0] && LittleEndian(0, 2) == [0, 0] && LittleEndian(0, 3) == [0, 0, 0];
  }

  lemma SignatureBytes()
    ensures LittleEndian(SIGNATURE, 4) == [0x50, 0x4b, 3, 4]
  {
    assert LittleEndian(4, 1) == [4] && LittleEndian(0x0403, 2) == [3, 4] && LittleEndian(0x04034b, 3) == [0x4b, 3, 4];
  }

  ghost predicate Inverse(deflate: Bytes -> Bytes, inflate: Bytes -> Option<Bytes>) {
    forall x: Bytes :: inflate(deflate(x)) == Some(x)
  }

  /** The member at the front is read whole, and the reader goes on right behind it. */
  lemma MemberReadsBack(e: Entry, rest: Bytes, deflate: Bytes -> Bytes, inflate: Bytes -> Option<Bytes>)
    requires Fits(e, deflate) && Inverse(deflate, inflate)
    ensures ReadArchive(Member(e, deflate) + rest, inflate) ==
            match ReadArchive(rest, inflate) { case None => None case Some(es) => Some([e] + es) }
  {
    hide LittleEndian, ReadFields, Header, Member, ReadArchive;
    var data, b := deflate(e.content), Member(e, deflate) + rest;
    MemberParts(e, rest, deflate);
    assert inflate(data) == Some(e.content);
    ReadOne(b, ReadFields(b), e.content, inflate);
  }

  /** Where the parts of the front member lie. */
  lemma MemberParts(e: Entry, rest: Bytes, deflate: Bytes -> Bytes)
    requires Fits(e, deflate)
    ensures var data, b := deflate(e.content), Member(e, deflate) + rest;
            var dataAt := HEADER + |e.name|;
            && |b| == dataAt + |data| + |rest|
            && ReadFields(b) == Fields(SIGNATURE, 20, 0, 8, 0, 0, 0, |data|, |e.content|, |e.name|, 0)
            && b[HEADER..dataAt] == e.name && b[dataAt..dataAt + |data|] == data && b[dataAt + |data|..] == rest
  {
    hide LittleEndian, ReadFields, Header;
    var data := deflate(e.content);
    var header := Header(|e.name|, |data|, |e.content|);
    assert Member(e, deflate) + rest == header + (e.name + data + rest);
    HeaderReadsBack(|e.name|, |data|, |e.content|, e.name + data + rest);
  }

  /** One member is read, and then what follows it. */
  lemma ReadOne(b: Bytes, f: Fields, content: Bytes, inflate: Bytes -> Option<Bytes>)
    requires |b| >= HEADER && ReadFields(b) == f
    requires f.signature == SIGNATURE && f.compression == 8 && f.flags == 0 && f.extraLength == 0
    requires HEADER + f.nameLength + f.compressed <= |b| && |content| == f.uncompressed
    requires inflate(b[HEADER + f.nameLength..HEADER + f.nameLength + f.compressed]) == Some(content)
    ensures ReadArchive(b, inflate) ==
            match ReadArchive(b[HEADER + f.nameLength + f.compressed..], inflate)
            case None => None
            case Some(es) => Some([Entry(b[HEADER..HEADER + f.nameLength], content)] + es)
  {
    hide ReadFields;
  }

  lemma {:induction false} ArchiveCons(e: Entry, entries: seq<Entry>, deflate: Bytes -> Bytes)
    ensures Archive([e] + entries, deflate) == Member(e, deflate) + Archive(entries, deflate)
  {
    hide Member;
    var all := [e] + entries;
    if entries == [] {
      assert all[..0] == [];
      assert all == [e];
    } else {
      assert all[..|all| - 1] == [e] + entries[..|entries| - 1];
      ArchiveCons(e, entries[..|entries| - 1], deflate);
    }
  }

  /** Reading what was written gives the names and contents back, all of them and in order. */
  lemma {:induction false} ZipRoundTrip(entries: seq<Entry>, deflate: Bytes -> Bytes, inflate: Bytes -> Option<Bytes>)
    requires Inverse(deflate, inflate) && forall i :: 0 <= i < |entries| ==> Fits(entries[i], deflate)
    ensures ReadArchive(Archive(entries, deflate), inflate) == Some(entries)
  {
    hide Member, Fits, ReadFields;
    if entries != [] {
      ZipRoundTrip(entries[1..], deflate, inflate);
      assert entries == [entries[0]] + entries[1..];
      ArchiveCons(entries[0], entries[1..], deflate);
      MemberReadsBack(entries[0], Archive(entries[1..], deflate), deflate, inflate);
    }
  }

  function TotalSize(entries: seq<Entry>, deflate: Bytes -> Bytes): nat {
    if entries == [] then 0
    else HEADER + |entries[0].name| + |deflate(entries[0].content)| + TotalSize(entries[1..], deflate)
  }

  lemma {:induction false} ArchiveSize(entries: seq<Entry>, deflate: Bytes -> Bytes)
    ensures |Archive(entries, deflate)| == TotalSize(entries, deflate)
  {
    hide Header;
    if entries != [] {
      ArchiveSize(entries[1..], deflate);
      assert entries == [entries[0]] + entries[1..];
      ArchiveCons(entries[0], entries[1..], deflate);
    }
  }
}
