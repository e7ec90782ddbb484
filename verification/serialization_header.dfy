// SerializationHeader: a version string and a byte-order mark written at the
// front of a serialized stream. Writing it emits the string (as a counted
// char collection) and the mark 0xFEFF as a 2-byte wchar_t; reading it back
// sets the is_current_version flag from the string and the is_host_endian
// flag from the mark. The flags themselves are never written.

module SerialHeader {
  import opened Common
  import opened SerialBytes
  import opened SerialBuffers
  import opened SerialVisit
  import opened SerialDecode

  /** SerializationFlags, a uint32_t bit set. */
  const NONE: bv32 := 0
  const IS_HOST_ENDIAN: bv32 := 1
  const IS_CURRENT_VERSION: bv32 := 2

  /** SERIALIZATION_CURRENT_VERSION_STRING, "v0.1", as its char codes. */
  const CURRENT_VERSION: seq<byte> := [0x76, 0x30, 0x2E, 0x31]

  /** The byte-order mark as written by a host, and as read on a host of the
      other byte order. */
  const BOM: nat := 0xFEFF
  const SWAPPED_BOM: nat := 0xFFFE

  /** sizeof(wchar_t) on the targets. */
  const WCHAR_SIZE: nat := 2

  /** The members the const visitor visits, in action order: the string,
      the VisitDirect action (which writes nothing), the BOM getter. */
  function HeaderMembers(verString: seq<byte>): (r: seq<Member>)
    ensures |r| == 2
  {
    [PrimArray(verString, 1), Prim(BOM, WCHAR_SIZE)]
  }

  /** The layout the deserializer reads: a char collection, then a wchar_t. */
  const HEADER_SHAPE: seq<Shape> := [PrimArrayS(1, None), PrimS(WCHAR_SIZE)]

  /** The VisitDirect setter: the version flag after reading the string. */
  function VersionFlags(flags: bv32, verString: seq<byte>): (r: bv32)
    ensures r & IS_CURRENT_VERSION == IS_CURRENT_VERSION <==> verString == CURRENT_VERSION
    ensures r & !IS_CURRENT_VERSION == flags & !IS_CURRENT_VERSION
  {
    if verString == CURRENT_VERSION then flags | IS_CURRENT_VERSION
    else flags & !IS_CURRENT_VERSION
  }

  /** The BOM setter: host order, swapped order, or invalid_argument. */
  function BomFlags(flags: bv32, bom: nat): (r: Result<bv32, SerialError>)
    ensures r.Err? <==> bom != BOM && bom != SWAPPED_BOM
    ensures r.Err? ==> r.error == InvalidArgument
    ensures r.Ok? ==> (r.value & IS_HOST_ENDIAN == IS_HOST_ENDIAN <==> bom == BOM)
    ensures r.Ok? ==> r.value & !IS_HOST_ENDIAN == flags & !IS_HOST_ENDIAN
  {
    if bom == BOM then Ok(flags | IS_HOST_ENDIAN)
    else if bom == SWAPPED_BOM then Ok(flags & !IS_HOST_ENDIAN)
    else Err(InvalidArgument)
  }

  /** Reading a header into one whose flags are `flags`: the version
      string, the flags afterwards, and bytesRead. */
  function ReadHeader(flags: bv32, input: seq<byte>): (r: Result<(seq<byte>, bv32, nat), SerialError>)
    ensures r.Ok? ==> r.value.2 <= |input|
  {
    var rs := Decode(HEADER_SHAPE[0], input);
    if rs.Err? then Err(rs.error)
    else
      var (str, n) := rs.value;
      var afterVersion := VersionFlags(flags, str.values);
      var rb := Decode(HEADER_SHAPE[1], input[n..]);
      if rb.Err? then Err(rb.error)
      else
        var (bom, k) := rb.value;
        var rf := BomFlags(afterVersion, bom.value);
        if rf.Err? then Err(rf.error)
        else Ok((str.values, rf.value, n + k))
  }

  class SerializationHeader {
    var verString: seq<byte>
    var flags: bv32

    constructor ()
      ensures verString == CURRENT_VERSION && flags == NONE
    {
      verString := CURRENT_VERSION;
      flags := NONE;
    }

    /** CheckFlag: every bit of `flag` is already set in the flags. */
    function CheckFlag(flag: bv32): (r: bool)
      reads this
      ensures r <==> flags | flag == flags
    {
      flags & flag == flag
    }

    /** Deserialize into this header, running its three actions in order:
        the string (the collection setter replaces it), the version flag,
        then the byte-order mark. Returns bytesRead. */
    method Deserialize(input: seq<byte>) returns (r: Result<nat, SerialError>)
      modifies this
      ensures r.Ok? <==> ReadHeader(old(flags), input).Ok?
      ensures r.Err? ==> r.error == ReadHeader(old(flags), input).error
      ensures r.Ok? ==> (verString, flags, r.value) == ReadHeader(old(flags), input).value
    {
      var rs := Decode(HEADER_SHAPE[0], input);
      if rs.Err? {
        return Err(rs.error);
      }
      var (str, n) := rs.value;
      verString := str.values;
      flags := VersionFlags(flags, verString);
      var rb := Decode(HEADER_SHAPE[1], input[n..]);
      if rb.Err? {
        return Err(rb.error);
      }
      var (bom, k) := rb.value;
      var f := BomFlags(flags, bom.value);
      if f.Err? {
        return Err(f.error);
      }
      flags := f.value;
      r := Ok(n + k);
    }
  }

  /** A header written by a host and read back on a host of the same byte
      order carries the current version string and sets both flags, keeping
      every other flag bit of the reading header. */
  lemma HeaderRoundTrip(flags: bv32)
    ensures ReadHeader(flags, EncodeFields(HeaderMembers(CURRENT_VERSION)))
            == Ok((CURRENT_VERSION, flags | IS_CURRENT_VERSION | IS_HOST_ENDIAN,
                   |EncodeFields(HeaderMembers(CURRENT_VERSION))|))
  {
    var ms := HeaderMembers(CURRENT_VERSION);
    var e0, e1 := EncodeMember(ms[0]), EncodeMember(ms[1]);
    var t := ms[1..];
    assert t[1..] == [];
    assert EncodeFields(t) == e1 + EncodeFields(t[1..]) == e1;
    assert EncodeFields(ms) == e0 + EncodeFields(t);
    assert CURRENT_VERSION[0] < 256 && CURRENT_VERSION[1] < 256 && CURRENT_VERSION[2] < 256 && CURRENT_VERSION[3] < 256;
    assert Conforms(ms[0], HEADER_SHAPE[0]);
    DecodeEncode(ms[0], HEADER_SHAPE[0], e1);
    assert EncodeFields(ms)[|e0|..] == e1 + [];
    assert e1 + [] == e1;
    DecodeEncode(ms[1], HEADER_SHAPE[1], []);
  }

  /** A header written on a host of the other byte order (its mark reads
      0xFFFE) is accepted with is_host_endian cleared. */
  lemma SwappedHeaderAccepted(flags: bv32, verString: seq<byte>)
    requires |verString| < 0x1_0000
    requires forall i :: 0 <= i < |verString| ==> verString[i] < 256
    ensures var ms := [PrimArray(verString, 1), Prim(SWAPPED_BOM, WCHAR_SIZE)];
            ReadHeader(flags, EncodeFields(ms)).Ok?
            && ReadHeader(flags, EncodeFields(ms)).value.1 & IS_HOST_ENDIAN == 0
  {
    var ms := [PrimArray(verString, 1), Prim(SWAPPED_BOM, WCHAR_SIZE)];
    var e0, e1 := EncodeMember(ms[0]), EncodeMember(ms[1]);
    var t := ms[1..];
    assert t[1..] == [];
    assert EncodeFields(t) == e1 + EncodeFields(t[1..]) == e1;
    assert EncodeFields(ms) == e0 + EncodeFields(t);
    assert Conforms(ms[0], HEADER_SHAPE[0]);
    DecodeEncode(ms[0], HEADER_SHAPE[0], e1);
    assert EncodeFields(ms)[|e0|..] == e1 + [];
    assert e1 + [] == e1;
    DecodeEncode(ms[1], HEADER_SHAPE[1], []);
  }
}
