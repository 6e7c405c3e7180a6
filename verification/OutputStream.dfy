/**
 * The buffered output stream as the library updates it: a fixed buffer, two cursors into it, a file.
 */
module OutputStream {
  import StreamModel

  type Byte = StreamModel.Byte

  datatype IOError = OK | WRITE

  /** The file behind the stream, which may accept only a prefix of what it is given. */
  class File {
    var content: seq<Byte>
    var limits: seq<nat>
    var writes: nat

    constructor (limits: seq<nat>)
      ensures content == [] && this.limits == limits && writes == 0
    {
      content, this.limits, writes := [], limits, 0;
    }

    method FWrite(data: seq<Byte>) returns (written: nat)
      modifies this
      ensures written == StreamModel.Accepts(old(limits), |data|)
      ensures content == old(content) + data[..written] && writes == old(writes) + 1
      ensures limits == if old(limits) == [] then [] else old(limits)[1..]
    {
      written := if limits == [] || limits[0] > |data| then |data| else limits[0];
      content := content + data[..written];
      limits := if limits == [] then [] else limits[1..];
      writes := writes + 1;
    }
  }

  class OutputFileStream {
    const buffer: array<Byte>
    const file: File
    var bCursor: nat
    var eCursor: nat

    ghost function Model(): StreamModel.Stream
      requires bCursor <= eCursor <= buffer.Length
      reads this, buffer, file
    {
      StreamModel.Stream(buffer.Length, buffer[bCursor..eCursor], eCursor, file.content, file.limits, file.writes)
    }

    ghost predicate Valid()
      reads this, buffer, file
    {
      bCursor <= eCursor <= buffer.Length && StreamModel.Valid(Model())
    }

    constructor (file: File, bufferSize: nat)
      ensures this.file == file && Valid() && fresh(buffer)
      ensures Model() == StreamModel.Stream(bufferSize, [], 0, file.content, file.limits, file.writes)
    {
      this.file := file;
      buffer := new Byte[bufferSize](_ => 0);
      bCursor, eCursor := 0, 0;
    }

    method Flush() returns (e: IOError)
      requires Valid()
      modifies this, file
      ensures Valid()
      ensures (Model(), e == OK) == StreamModel.Flush(old(Model()))
    {
      var len := eCursor - bCursor;
      if len == 0 {
        return OK;
      }
      var written := file.FWrite(buffer[bCursor..eCursor]);
      if written < len {
        bCursor := bCursor + written;
        return WRITE;
      }
      bCursor, eCursor := 0, 0;
      return OK;
    }

    /** `memcpy` to the end cursor, which then moves behind the copied bytes. */
    method Append(data: seq<Byte>)
      requires Valid() && |data| <= buffer.Length - eCursor
      modifies this, buffer
      ensures bCursor == old(bCursor) && eCursor == old(eCursor) + |data|
      ensures Model() == old(Model()).(pending := old(Model()).pending + data, end := old(eCursor) + |data|)
    {
      ghost var was := buffer[..];
      forall i | 0 <= i < |data| { buffer[eCursor + i] := data[i]; }
      eCursor := eCursor + |data|;
      assert buffer[bCursor..eCursor] == was[bCursor..old(eCursor)] + data;
    }

    /** One round of the write loop: data that does not fit fills the buffer, which is then flushed. */
    method FillAndFlush(data: seq<Byte>) returns (e: IOError)
      requires Valid() && buffer.Length - eCursor < |data|
      modifies this, buffer, file
      ensures Valid()
      ensures (Model(), e == OK) == StreamModel.Flush(StreamModel.Fill(old(Model()), data))
    {
      Append(data[..buffer.Length - eCursor]);
      e := Flush();
    }

    /** The same round, as a step towards the result `goal` of the whole write. */
    method Round(data: seq<Byte>, ghost goal: StreamModel.Result) returns (e: IOError, rest: seq<Byte>)
      requires Valid() && 0 < buffer.Length && buffer.Length - eCursor < |data|
      requires goal == StreamModel.Write(Model(), data)
      modifies this, buffer, file
      ensures Valid() && |rest| <= |data|
      ensures e == OK ==> goal == StreamModel.Write(Model(), rest) && (|rest| < |data| || eCursor < old(eCursor))
      ensures e != OK ==> goal == StreamModel.Result(Model(), false, |rest|)
    {
      ghost var before := Model();
      var restSize := buffer.Length - eCursor;
      e := FillAndFlush(data);
      rest := data[restSize..];
      assert (Model(), e == OK) == StreamModel.Flush(StreamModel.Fill(before, data));
    }

    /** The write loop: rounds until what is left fits behind the end cursor, or a flush fails. */
    method Rounds(data: seq<Byte>, ghost goal: StreamModel.Result) returns (e: IOError, rest: seq<Byte>)
      requires Valid() && (0 < buffer.Length || data == []) && goal == StreamModel.Write(Model(), data)
      modifies this, buffer, file
      ensures Valid() && (0 < buffer.Length || rest == [])
      ensures e == OK ==> |rest| <= buffer.Length - eCursor && goal == StreamModel.Write(Model(), rest)
      ensures e != OK ==> goal == StreamModel.Result(Model(), false, |rest|)
    {
      rest, e := data, OK;
      while buffer.Length - eCursor < |rest|
        invariant Valid() && (0 < buffer.Length || rest == []) && e == OK
        invariant goal == StreamModel.Write(Model(), rest)
        decreases |rest|, eCursor
      {
        e, rest := Round(rest, goal);
        if e != OK {
          return;
        }
      }
    }

    /** An empty buffer can take no byte, so it only serves the empty write. */
    method Write(data: seq<Byte>) returns (e: IOError, ghost left: nat)
      requires Valid() && (0 < buffer.Length || data == [])
      modifies this, buffer, file
      ensures Valid()
      ensures StreamModel.Result(Model(), e == OK, left) == StreamModel.Write(old(Model()), data)
    {
      var rest;
      e, rest := Rounds(data, StreamModel.Write(Model(), data));
      if e != OK {
        return e, |rest|;
      }
      if |rest| == 0 {
        return OK, 0;
      }
      Append(rest);
      return OK, 0;
    }
  }
}
