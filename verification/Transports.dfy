/**
 The byte transport under the protocols.

 A transport is an arbitrary source and sink: `incoming` holds the bytes it will still
 deliver, and each read returns any non-empty prefix of them that fits the caller's
 buffer, so a proof over this class holds for every chunking. A read or a write may
 also fail at any time; a failed call moves no bytes, and `failures` counts them.
 */
module Transports {
  import opened Words

  class Transport {
    var incoming: Bytes
    var sent: Bytes
    ghost var failures: nat

    constructor (data: Bytes)
      ensures incoming == data && sent == []
    {
      incoming, sent, failures := data, [], 0;
    }

    /** Reads at most `size` bytes; an empty chunk is the end of the stream. */
    method Read(size: nat) returns (chunk: Result<Bytes>)
      requires size > 0
      modifies this`incoming, this`failures
      ensures chunk.Ok? ==> old(incoming) == chunk.value + incoming && |chunk.value| <= size
      ensures chunk.Ok? && chunk.value == [] ==> old(incoming) == []
      ensures chunk.Err? ==> chunk.error == Error.Transport && incoming == old(incoming)
      ensures failures == old(failures) + if chunk.Ok? then 0 else 1
    {
      if * {
        failures := failures + 1;
        return Err(Error.Transport);
      }
      var count: nat :| count <= size && count <= |incoming| && (count == 0 ==> incoming == []);
      chunk := Ok(incoming[..count]);
      incoming := incoming[count..];
    }

    method Write(data: Bytes) returns (status: Result<()>)
      modifies this`sent, this`failures
      ensures status.Ok? ==> sent == old(sent) + data
      ensures status.Err? ==> status.error == Error.Transport && sent == old(sent)
      ensures failures == old(failures) + if status.Ok? then 0 else 1
    {
      if * {
        failures := failures + 1;
        return Err(Error.Transport);
      }
      sent := sent + data;
      status := Ok(());
    }
  }

  /**
   A stream that hands out exact counts. A call that fails may have lost bytes or sent a
   part of them, and fails with an error of any kind; `failures` counts such calls.
   */
  class ByteStream {
    var incoming: Bytes
    var sent: Bytes
    ghost var failures: nat

    constructor (data: Bytes)
      ensures incoming == data && sent == []
    {
      incoming, sent, failures := data, [], 0;
    }

    method ReadExact(size: nat) returns (data: Result<Bytes>)
      modifies this`incoming, this`failures
      ensures data.Ok? ==> |data.value| == size && old(incoming) == data.value + incoming
      ensures data.Err? ==> data.error in {Protocol, Device, Error.Transport} && |incoming| <= |old(incoming)|
      ensures failures == old(failures) + if data.Ok? then 0 else 1
    {
      if * {
        var lost: nat :| lost <= |incoming|;
        incoming, failures := incoming[lost..], failures + 1;
        var error := AnyError();
        return Err(error);
      }
      if |incoming| < size {
        incoming, failures := [], failures + 1;
        var error := AnyError();
        return Err(error);
      }
      data := Ok(incoming[..size]);
      incoming := incoming[size..];
    }

    method Write(data: Bytes) returns (status: Result<()>, ghost count: nat)
      modifies this`sent, this`failures
      ensures count <= |data| && sent == old(sent) + data[..count]
      ensures if status.Ok? then count == |data| else status.error in {Protocol, Device, Error.Transport}
      ensures failures == old(failures) + if status.Ok? then 0 else 1
    {
      if * {
        var part: nat :| part <= |data|;
        sent, failures, count := sent + data[..part], failures + 1, part;
        var error := AnyError();
        return Err(error), count;
      }
      sent, count := sent + data, |data|;
      status := Ok(());
    }
  }

  method AnyError() returns (error: Error)
    ensures error in {Protocol, Device, Error.Transport}
  {
    error :| error in {Protocol, Device, Error.Transport};
  }
}
