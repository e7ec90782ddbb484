// The byte sinks and sources of the serialization kit: a caller-supplied
// fixed-size output buffer, an output stream, a growable vector, and a
// fixed-size input buffer. Each keeps a cursor (bytes written or read) that
// the serializer and deserializer advance one WriteIntegers/ReadIntegers call
// at a time.

module SerialBuffers {
  import opened Common
  import opened SerialBytes

  /** The exceptions the kit throws: std::overflow_error, std::range_error
      and std::invalid_argument. */
  datatype SerialError = OverflowError | RangeError | InvalidArgument

  /** Writes into a caller-owned array of fixed length; a write that does not
      fit throws and leaves the buffer untouched. */
  class FixedSizeSerializationBuffer {
    const output: array<byte>
    var bytesWritten: nat

    ghost predicate Valid()
      reads this
    {
      bytesWritten <= output.Length
    }

    constructor (outputBuffer: array<byte>)
      ensures Valid() && output == outputBuffer && bytesWritten == 0
    {
      output := outputBuffer;
      bytesWritten := 0;
    }

    method WriteIntegers(vals: seq<nat>, size: nat) returns (r: Outcome<SerialError>)
      requires Valid()
      modifies this, output
      ensures Valid()
      ensures r.Fail? <==> old(output.Length - bytesWritten) < size * |vals|
      ensures r.Fail? ==> r.error == OverflowError && bytesWritten == old(bytesWritten)
                          && output[..] == old(output[..])
      ensures r.Pass? ==> bytesWritten == old(bytesWritten) + size * |vals|
      ensures r.Pass? ==> output[..] == old(output[..bytesWritten]) + EncodeAll(vals, size)
                                        + old(output[bytesWritten + size * |vals|..])
      ensures r.Pass? ==> output[..bytesWritten] == old(output[..bytesWritten]) + EncodeAll(vals, size)
    {
      var remaining := output.Length - bytesWritten;
      var required := size * |vals|;
      if remaining < required {
        return Fail(OverflowError);
      }
      var enc := EncodeAll(vals, size);
      var start := bytesWritten;
      var i := 0;
      while i < required
        invariant 0 <= i <= required
        invariant bytesWritten == start
        invariant forall k :: 0 <= k < output.Length ==>
          output[k] == if start <= k < start + i then enc[k - start] else old(output[k])
      {
        output[start + i] := enc[i];
        i := i + 1;
      }
      ghost var before := old(output[..]);
      assert output[..] == before[..start] + enc + before[start + required..];
      assert output[..start + required] == before[..start] + enc;
      bytesWritten := start + required;
      r := Pass;
    }
  }

  /** Appends to an output stream and counts the bytes; it never fails. */
  class StreamSerializationBuffer {
    var stream: seq<byte>
    var bytesWritten: nat

    constructor (initial: seq<byte>)
      ensures stream == initial && bytesWritten == 0
    {
      stream := initial;
      bytesWritten := 0;
    }

    method WriteIntegers(vals: seq<nat>, size: nat)
      modifies this
      ensures stream == old(stream) + EncodeAll(vals, size)
      ensures bytesWritten == old(bytesWritten) + size * |vals|
    {
      stream := stream + EncodeAll(vals, size);
      bytesWritten := bytesWritten + size * |vals|;
    }
  }

  /** Writes into a caller-owned std::vector, resizing it to exactly the bytes
      written so far; any earlier contents past the cursor are dropped. */
  class VectorSerializationBuffer {
    var buffer: seq<byte>
    var bytesWritten: nat

    ghost predicate Valid()
      reads this
    {
      bytesWritten <= |buffer|
    }

    constructor (initial: seq<byte>)
      ensures Valid() && buffer == initial && bytesWritten == 0
    {
      buffer := initial;
      bytesWritten := 0;
    }

    method WriteIntegers(vals: seq<nat>, size: nat)
      requires Valid()
      modifies this
      ensures Valid()
      ensures |buffer| == bytesWritten
      ensures bytesWritten == old(bytesWritten) + size * |vals|
      ensures buffer == old(buffer[..bytesWritten]) + EncodeAll(vals, size)
    {
      var required := size * |vals|;
      // resize: keep the first bytesWritten + required bytes, padding with zeros
      var resized := if |buffer| >= bytesWritten + required then buffer[..bytesWritten + required]
                     else buffer + seq(bytesWritten + required - |buffer|, _ => 0);
      buffer := resized[..bytesWritten] + EncodeAll(vals, size);
      bytesWritten := bytesWritten + required;
    }
  }

  /** Reads from a caller-owned byte range; a read past its end throws and
      leaves the cursor where it was. */
  class FixedSizeDeserializationBuffer {
    const input: seq<byte>
    var bytesRead: nat

    ghost predicate Valid()
      reads this
    {
      bytesRead <= |input|
    }

    constructor (inputBuffer: seq<byte>)
      ensures Valid() && input == inputBuffer && bytesRead == 0
    {
      input := inputBuffer;
      bytesRead := 0;
    }

    method ReadIntegers(count: nat, size: nat) returns (r: Result<seq<nat>, SerialError>)
      requires Valid()
      modifies this
      ensures Valid()
      ensures r.Err? <==> old(|input| - bytesRead) < size * count
      ensures r.Err? ==> r.error == OverflowError && bytesRead == old(bytesRead)
      ensures r.Ok? ==> bytesRead == old(bytesRead) + size * count
                        && r.value == DecodeAll(input[old(bytesRead)..bytesRead], size, count)
    {
      var remaining := |input| - bytesRead;
      var required := size * count;
      if remaining < required {
        return Err(OverflowError);
      }
      var vals := DecodeAll(input[bytesRead..bytesRead + required], size, count);
      bytesRead := bytesRead + required;
      r := Ok(vals);
    }
  }

  /** Writing values into a fixed-size serialization buffer over `output`
      and reading them back through a deserialization buffer over the
      bytes written: the write fails with overflow_error exactly when the
      values do not fit, and otherwise the read gives the same values and
      reads as many bytes as were written. */
  method WriteThenRead(vals: seq<nat>, size: nat, output: array<byte>)
    returns (read: Result<seq<nat>, SerialError>, bytesWritten: nat, bytesRead: nat)
    requires AllFit(vals, size)
    modifies output
    ensures read.Err? <==> output.Length < size * |vals|
    ensures read.Err? ==> read.error == OverflowError
    ensures read.Ok? ==> read.value == vals && bytesRead == bytesWritten == size * |vals|
  {
    var sink := new FixedSizeSerializationBuffer(output);
    var w := sink.WriteIntegers(vals, size);
    if w.Fail? {
      return Err(w.error), sink.bytesWritten, 0;
    }
    bytesWritten := sink.bytesWritten;
    var source := new FixedSizeDeserializationBuffer(output[..bytesWritten]);
    read := source.ReadIntegers(|vals|, size);
    bytesRead := source.bytesRead;
    assert output[..bytesWritten][0..bytesRead] == EncodeAll(vals, size);
    DecodeAllOfEncodeAll(vals, size);
  }
}
