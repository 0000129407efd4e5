// The stream reader that takes at most a limited number of bytes out of a buffer (AsioHelpers.cpp).

module LimitedReader {
  import opened Net

  function Min(a: int, b: int): int {
    if a <= b then a else b
  }

  // asio::streambuf as far as it is used here.
  class StreamBuffer {
    var data: seq<Byte>

    constructor ()
      ensures data == []
    {
      data := [];
    }

    method Append(bytes: seq<Byte>)
      modifies this
      ensures data == old(data) + bytes
    {
      data := data + bytes;
    }

    method Consume(count: nat)
      modifies this
      ensures data == old(data)[Min(count, |old(data)|)..]
    {
      data := data[Min(count, |data|)..];
    }
  }

  // The bytes that one read takes.
  function Taken(data: seq<Byte>, remaining: nat, size: nat): seq<Byte> {
    data[..Min(remaining, Min(|data|, size))]
  }

  class Reader {
    const source: StreamBuffer
    var remaining: int

    constructor (source: StreamBuffer, limit: nat)
      ensures this.source == source && remaining == limit
    {
      this.source, remaining := source, limit;
    }

    // Returns the number of bytes stored in the buffer, or -1 if there are none to be had.
    method Read(buffer: array<Byte>, size: nat) returns (count: int)
      requires remaining >= 0 && size <= buffer.Length
      modifies this, source, buffer
      ensures count == -1 <==> old(remaining) == 0 || old(source.data) == [] || size == 0
      ensures count != -1 ==>
                && count <= old(remaining) && count <= |old(source.data)| && count <= size
                && (count == old(remaining) || count == |old(source.data)| || count == size)
                && buffer[..count] + source.data == old(source.data)
                && buffer[count..] == old(buffer[..])[count..]
                && remaining == old(remaining) - count && remaining >= 0
      ensures count == -1 ==>
                buffer[..] == old(buffer[..]) && source.data == old(source.data) && remaining == old(remaining)
    {
      var n := Min(remaining, Min(|source.data|, size));
      if n == 0 {
        return -1;
      }
      for i := 0 to n
        modifies buffer
        invariant buffer[..i] == source.data[..i]
        invariant buffer[i..] == old(buffer[..])[i..]
      {
        buffer[i] := source.data[i];
      }
      assert buffer[..] == buffer[..n] + buffer[n..];
      remaining := remaining - n;
      source.Consume(n);
      return n;
    }
  }

  // Reading until the end of the sequence yields the limit or the whole buffer, whichever is less.
  method ReadToEnd(reader: Reader, size: nat) returns (result: seq<Byte>)
    requires reader.remaining >= 0 && size > 0
    modifies reader, reader.source
    ensures result == old(reader.source.data)[..Min(old(reader.remaining), |old(reader.source.data)|)]
    ensures old(reader.source.data) == result + reader.source.data
    ensures reader.remaining == old(reader.remaining) - |result|
    ensures reader.remaining == 0 || reader.source.data == []
  {
    var buffer := new Byte[size];
    result := [];
    var count := 0;
    while count != -1
      invariant reader.remaining >= 0 && count >= -1
      invariant old(reader.source.data) == result + reader.source.data
      invariant reader.remaining == old(reader.remaining) - |result|
      invariant count == -1 ==> reader.remaining == 0 || reader.source.data == []
      decreases count != -1, reader.remaining
    {
      ghost var before := reader.source.data;
      count := reader.Read(buffer, size);
      if count != -1 {
        assert before == buffer[..count] + reader.source.data;
        result := result + buffer[..count];
      }
    }
  }

  // ---------- runs ----------

  // Readers used one after another on one buffer, which grows in between.
  datatype Operation = Append(bytes: seq<Byte>) | Open(limit: nat) | Read(size: nat)

  // The buffer, the open reader with what it has yielded, and everything any reader has yielded.
  datatype Device = Device(data: seq<Byte>, limit: nat, remaining: nat, yielded: seq<Byte>, output: seq<Byte>)

  function Apply(d: Device, op: Operation): Device {
    match op
    case Append(bytes) => d.(data := d.data + bytes)
    case Open(limit) => d.(limit := limit, remaining := limit, yielded := [])
    case Read(size) =>
      var taken := Taken(d.data, d.remaining, size);
      Device(d.data[|taken|..], d.limit, d.remaining - |taken|, d.yielded + taken, d.output + taken)
  }

  function Play(ops: seq<Operation>): Device {
    if ops == [] then Device([], 0, 0, [], []) else Apply(Play(ops[..|ops| - 1]), ops[|ops| - 1])
  }

  function Appended(ops: seq<Operation>): seq<Byte> {
    if ops == [] then []
    else
      var last := ops[|ops| - 1];
      Appended(ops[..|ops| - 1]) + (if last.Append? then last.bytes else [])
  }

  ghost predicate Conserved(d: Device, appended: seq<Byte>) {
    && d.output + d.data == appended
    && |d.yielded| + d.remaining == d.limit
    && |d.yielded| <= |d.output| && d.yielded == d.output[|d.output| - |d.yielded|..]
  }

  lemma MovesOver(output: seq<Byte>, yielded: seq<Byte>, data: seq<Byte>, n: nat)
    requires n <= |data| && |yielded| <= |output| && yielded == output[|output| - |yielded|..]
    ensures (output + data[..n]) + data[n..] == output + data
    ensures yielded + data[..n] == (output + data[..n])[|output| - |yielded|..]
  {
  }

  lemma ReadConserves(d: Device, size: nat, appended: seq<Byte>)
    requires Conserved(d, appended)
    ensures Conserved(Apply(d, Read(size)), appended)
  {
    MovesOver(d.output, d.yielded, d.data, |Taken(d.data, d.remaining, size)|);
  }

  lemma AppendConserves(d: Device, bytes: seq<Byte>, appended: seq<Byte>)
    requires Conserved(d, appended)
    ensures Conserved(Apply(d, Append(bytes)), appended + bytes)
  {
    assert d.output + (d.data + bytes) == (d.output + d.data) + bytes;
  }

  // Nothing is lost, repeated or reordered, and no reader yields more than its limit.
  lemma {:induction false} Conservation(ops: seq<Operation>)
    ensures Conserved(Play(ops), Appended(ops))
  {
    if ops != [] {
      var before, last := ops[..|ops| - 1], ops[|ops| - 1];
      Conservation(before);
      match last
      case Append(bytes) => AppendConserves(Play(before), bytes, Appended(before));
      case Open(_) =>
      case Read(size) => ReadConserves(Play(before), size, Appended(before));
    }
  }

  method ReadSome(reader: Reader, size: nat) returns (bytes: seq<Byte>)
    requires reader.remaining >= 0
    modifies reader, reader.source
    ensures bytes == Taken(old(reader.source.data), old(reader.remaining), size)
    ensures bytes + reader.source.data == old(reader.source.data)
    ensures reader.remaining == old(reader.remaining) - |bytes| && reader.remaining >= 0
  {
    var buffer := new Byte[size];
    var count := reader.Read(buffer, size);
    bytes := if count == -1 then [] else buffer[..count];
  }

  // The same on the objects: a buffer, and one reader after another on it.
  method Perform(ops: seq<Operation>) returns (source: StreamBuffer, output: seq<Byte>)
    ensures output == Play(ops).output && source.data == Play(ops).data
    ensures output + source.data == Appended(ops)
  {
    source := new StreamBuffer();
    var reader := new Reader(source, 0);
    output := [];
    assert ops[..0] == [];
    for i := 0 to |ops|
      invariant fresh(source) && fresh(reader) && reader.source == source
      invariant var d := Play(ops[..i]);
                source.data == d.data && reader.remaining == d.remaining && output == d.output
    {
      assert ops[..i + 1][..i] == ops[..i];
      match ops[i]
      case Append(bytes) => source.Append(bytes);
      case Open(limit) => reader := new Reader(source, limit);
      case Read(size) =>
        ghost var before := source.data;
        var bytes := ReadSome(reader, size);
        assert source.data == before[|bytes|..];
        output := output + bytes;
    }
    assert ops[..|ops|] == ops;
    Conservation(ops);
  }
}
