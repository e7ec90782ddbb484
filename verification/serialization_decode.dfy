// The deserializing side: the Deserializer reads, in the same pre-order as
// the serializer writes, an element count before every collection and the
// integral values themselves, through a fixed-size input buffer. A read past
// the end of the input throws overflow_error; a count that differs from the
// length of a fixed-size array throws range_error. What is to be read is
// fixed by the static layout of the class, modelled by Shape.

module SerialDecode {
  import opened Common
  import opened SerialBytes
  import opened SerialBuffers
  import opened SerialVisit

  /** The static layout of a member, as the class's visitor actions declare it. */
  datatype Shape =
    | PrimS(size: nat)                                    // integral member or setter
    | PrimArrayS(size: nat, fixedCount: Option<nat>)      // integral T[N] (Some(N)), string or collection (None)
    | NestedS(fields: seq<Shape>)                         // member of class type
    | NestedArrayS(elementFields: seq<Shape>, fixedCount: Option<nat>)  // array or collection of class instances

  /** A member value has the layout: same widths, values that fit them,
      counts that fit a size_t and match fixed array lengths. */
  predicate Conforms(m: Member, s: Shape)
    decreases m, 1
  {
    match (m, s)
    case (Prim(v, size), PrimS(size')) => size == size' && v < Pow256(size)
    case (PrimArray(vs, size), PrimArrayS(size', fixed)) =>
      size == size' && AllFit(vs, size) && |vs| < Pow256(SIZE_T)
      && (fixed.Some? ==> |vs| == fixed.value)
    case (Nested(ms), NestedS(fs)) => ConformsFields(ms, fs)
    case (NestedArray(insts), NestedArrayS(es, fixed)) =>
      |insts| < Pow256(SIZE_T) && (fixed.Some? ==> |insts| == fixed.value)
      && ConformsInstances(insts, es)
    case _ => false
  }

  predicate ConformsFields(ms: seq<Member>, fs: seq<Shape>)
    decreases ms, 0
  {
    if ms == [] then fs == []
    else fs != [] && Conforms(ms[0], fs[0]) && ConformsFields(ms[1..], fs[1..])
  }

  predicate ConformsInstances(insts: seq<Instance>, es: seq<Shape>)
    decreases insts, 0
  {
    insts == [] || (ConformsFields(insts[0].fields, es) && ConformsInstances(insts[1..], es))
  }

  /** Reading an element count (a size_t), then, for a fixed-size array,
      IGetBufferFromArray::GetBuffer's check that it equals the array length. */
  function ReadCount(b: seq<byte>, fixed: Option<nat>): (r: Result<nat, SerialError>)
    ensures r.Err? <==> |b| < SIZE_T || (fixed.Some? && FromLE(b[..SIZE_T]) != fixed.value)
    ensures r.Err? ==> r.error == (if |b| < SIZE_T then OverflowError else RangeError)
    ensures r.Ok? ==> r.value == FromLE(b[..SIZE_T]) && r.value < Pow256(SIZE_T)
                      && (fixed.Some? ==> r.value == fixed.value)
  {
    if |b| < SIZE_T then Err(OverflowError)
    else
      var count := FromLE(b[..SIZE_T]);
      FromLEBound(b[..SIZE_T]);
      if fixed.Some? && count != fixed.value then Err(RangeError)
      else Ok(count)
  }

  /** VisitPrimitiveCollection on the deserializing side: the count, the
      fixed-length check, then `count` values of `size` bytes. */
  function DecodePrimArray(size: nat, fixed: Option<nat>, b: seq<byte>): (r: Result<(Member, nat), SerialError>)
    ensures r.Ok? ==> r.value.1 <= |b| && Conforms(r.value.0, PrimArrayS(size, fixed))
                      && EncodeMember(r.value.0) == b[..r.value.1]
  {
    var rc := ReadCount(b, fixed);
    if rc.Err? then Err(rc.error)
    else
      var count := rc.value;
      var required := size * count;
      if |b| - SIZE_T < required then Err(OverflowError)
      else
        var body := b[SIZE_T..SIZE_T + required];
        var vs := DecodeAll(body, size, count);
        DecodeAllFits(body, size, count);
        EncodeAllOfDecodeAll(body, size, count);
        LEOfFromLE(b[..SIZE_T]);
        assert b[..SIZE_T + required] == b[..SIZE_T] + body;
        Ok((PrimArray(vs, size), SIZE_T + required))
  }

  /** Deserializing one member from the front of the unread input: the
      member and the number of bytes read. A successful read returns a value
      of the declared layout whose encoding is exactly the bytes consumed. */
  function Decode(s: Shape, b: seq<byte>): (r: Result<(Member, nat), SerialError>)
    decreases s, 0
    ensures r.Ok? ==> r.value.1 <= |b| && Conforms(r.value.0, s)
                      && EncodeMember(r.value.0) == b[..r.value.1]
  {
    match s
    case PrimS(size) =>
      if |b| < size then Err(OverflowError)
      else
        FromLEBound(b[..size]);
        LEOfFromLE(b[..size]);
        Ok((Prim(FromLE(b[..size]), size), size))
    case PrimArrayS(size, fixed) => DecodePrimArray(size, fixed, b)
    case NestedS(fs) =>
      var rf := DecodeFields(fs, b);
      if rf.Err? then Err(rf.error) else Ok((Nested(rf.value.0), rf.value.1))
    case NestedArrayS(es, fixed) =>
      var rc := ReadCount(b, fixed);
      if rc.Err? then Err(rc.error)
      else
        var ri := DecodeInstances(es, rc.value, b[SIZE_T..]);
        if ri.Err? then Err(ri.error)
        else
          var (insts, n) := ri.value;
          LEOfFromLE(b[..SIZE_T]);
          assert b[..SIZE_T + n] == b[..SIZE_T] + b[SIZE_T..][..n];
          Ok((NestedArray(insts), SIZE_T + n))
  }

  /** Deserializing the members of one instance in declaration order. */
  function DecodeFields(fs: seq<Shape>, b: seq<byte>): (r: Result<(seq<Member>, nat), SerialError>)
    decreases fs, 0
    ensures r.Ok? ==> r.value.1 <= |b| && ConformsFields(r.value.0, fs)
                      && EncodeFields(r.value.0) == b[..r.value.1]
  {
    if fs == [] then Ok(([], 0))
    else
      var rm := Decode(fs[0], b);
      if rm.Err? then Err(rm.error)
      else
        var (m, n) := rm.value;
        var rs := DecodeFields(fs[1..], b[n..]);
        if rs.Err? then Err(rs.error)
        else
          var (ms, k) := rs.value;
          assert ([m] + ms)[1..] == ms;
          assert b[..n + k] == b[..n] + b[n..][..k];
          Ok(([m] + ms, n + k))
  }

  /** Deserializing `count` instances of a class, one after the other. */
  function DecodeInstances(es: seq<Shape>, count: nat, b: seq<byte>): (r: Result<(seq<Instance>, nat), SerialError>)
    decreases es, count
    ensures r.Ok? ==> r.value.1 <= |b| && |r.value.0| == count
                      && ConformsInstances(r.value.0, es)
                      && EncodeInstances(r.value.0) == b[..r.value.1]
  {
    if count == 0 then Ok(([], 0))
    else
      var rf := DecodeFields(es, b);
      if rf.Err? then Err(rf.error)
      else
        var (ms, n) := rf.value;
        var ri := DecodeInstances(es, count - 1, b[n..]);
        if ri.Err? then Err(ri.error)
        else
          var (insts, k) := ri.value;
          assert ([Instance(ms)] + insts)[1..] == insts;
          assert b[..n + k] == b[..n] + b[n..][..k];
          Ok(([Instance(ms)] + insts, n + k))
  }

  /** Deserialize(T&, const uint8_t*, size_t): read an object of the given
      class layout from the input and return its members and bytesRead. */
  function Deserialize(fs: seq<Shape>, input: seq<byte>): (r: Result<(seq<Member>, nat), SerialError>)
    ensures r.Ok? ==> r.value.1 <= |input| && EncodeFields(r.value.0) == input[..r.value.1]
  {
    DecodeFields(fs, input)
  }

  /** Reading back what the serializer wrote, followed by anything, gives
      the same member and reads exactly the bytes written. */
  lemma {:induction false} DecodeEncode(m: Member, s: Shape, rest: seq<byte>)
    requires Conforms(m, s)
    ensures Decode(s, EncodeMember(m) + rest) == Ok((m, |EncodeMember(m)|))
    decreases m, 1
  {
    var b := EncodeMember(m) + rest;
    match m
    case Prim(v, size) =>
      assert b[..size] == LE(v, size);
      FromLEOfLE(v, size);
    case PrimArray(vs, size) =>
      assert b[..SIZE_T] == LE(|vs|, SIZE_T);
      FromLEOfLE(|vs|, SIZE_T);
      assert b[SIZE_T..SIZE_T + size * |vs|] == EncodeAll(vs, size);
      DecodeAllOfEncodeAll(vs, size);
    case Nested(ms) =>
      DecodeFieldsEncode(ms, s.fields, rest);
    case NestedArray(insts) =>
      assert b[..SIZE_T] == LE(|insts|, SIZE_T);
      FromLEOfLE(|insts|, SIZE_T);
      assert b[SIZE_T..] == EncodeInstances(insts) + rest;
      DecodeInstancesEncode(insts, s.elementFields, rest);
  }

  lemma {:induction false} DecodeFieldsEncode(ms: seq<Member>, fs: seq<Shape>, rest: seq<byte>)
    requires ConformsFields(ms, fs)
    ensures DecodeFields(fs, EncodeFields(ms) + rest) == Ok((ms, |EncodeFields(ms)|))
    decreases ms, 0
  {
    if ms != [] {
      var e0, t := EncodeMember(ms[0]), EncodeFields(ms[1..]);
      var b := EncodeFields(ms) + rest;
      assert b == e0 + (t + rest);
      DecodeEncode(ms[0], fs[0], t + rest);
      assert b[|e0|..] == t + rest;
      DecodeFieldsEncode(ms[1..], fs[1..], rest);
      assert [ms[0]] + ms[1..] == ms;
    }
  }

  lemma {:induction false} DecodeInstancesEncode(insts: seq<Instance>, es: seq<Shape>, rest: seq<byte>)
    requires ConformsInstances(insts, es)
    ensures DecodeInstances(es, |insts|, EncodeInstances(insts) + rest) == Ok((insts, |EncodeInstances(insts)|))
    decreases insts, 0
  {
    if insts != [] {
      var head, tail := insts[0].fields, insts[1..];
      var tailBytes := EncodeInstances(tail) + rest;
      var b := EncodeInstances(insts) + rest;
      var n := |EncodeFields(head)|;
      assert b == EncodeFields(head) + tailBytes;
      DecodeFieldsEncode(head, es, tailBytes);
      assert DecodeFields(es, b) == Ok((head, n));
      assert b[n..] == tailBytes;
      DecodeInstancesEncode(tail, es, rest);
      var ri := DecodeInstances(es, |insts| - 1, b[n..]);
      assert ri.Ok? && ri.value.0 == tail && ri.value.1 == |EncodeInstances(tail)|;
      assert [Instance(head)] + tail == insts;
      assert |EncodeInstances(insts)| == n + |EncodeInstances(tail)|;
    }
  }

  /** Deserializing the output of a successful Serialize gives the object
      back, with bytesRead equal to bytesWritten. */
  lemma SerializeDeserialize(ms: seq<Member>, fs: seq<Shape>)
    requires ConformsFields(ms, fs)
    ensures Deserialize(fs, EncodeFields(ms)) == Ok((ms, |EncodeFields(ms)|))
  {
    DecodeFieldsEncode(ms, fs, []);
    assert EncodeFields(ms) + [] == EncodeFields(ms);
  }
}
