/** The TCP framing of the sync protocol: a message is its 4-byte length, as
  * `BitConverter` writes an `int` on a little-endian machine, followed by the UTF-8 bytes
  * of its JSON text. */
module Framing {
  import opened Common

  newtype byte = x: int | 0 <= x < 256

  const TwoTo31: int := 0x8000_0000
  const TwoTo32: int := 0x1_0000_0000

  /** `BitConverter.GetBytes(int)`: two's complement, least significant byte first. */
  function Int32Bytes(n: int): (b: seq<byte>)
    requires -TwoTo31 <= n < TwoTo31
    ensures |b| == 4
  {
    var u := if n < 0 then n + TwoTo32 else n;
    var q1 := u / 256;
    var q2 := q1 / 256;
    var q3 := q2 / 256;
    assert q3 < 256;
    [(u % 256) as byte, (q1 % 256) as byte, (q2 % 256) as byte, q3 as byte]
  }

  /** `BitConverter.ToInt32(bytes, 0)`. */
  function ToInt32(b: seq<byte>): (n: int)
    requires |b| >= 4
    ensures -TwoTo31 <= n < TwoTo31
  {
    var u := b[0] as int + 256 * (b[1] as int + 256 * (b[2] as int + 256 * (b[3] as int)));
    if u >= TwoTo31 then u - TwoTo32 else u
  }

  lemma DivMod256(n: int, q: int, r: int)
    requires n == 256 * q + r && 0 <= r < 256
    ensures n / 256 == q && n % 256 == r
  {
  }

  /** Writing an `int` and reading it back gives the same `int`, and four bytes read as an
    * `int` and written again give the same four bytes. */
  lemma Int32RoundTrip(n: int, b: seq<byte>)
    requires -TwoTo31 <= n < TwoTo31 && |b| == 4
    ensures ToInt32(Int32Bytes(n)) == n
    ensures Int32Bytes(ToInt32(b)) == b
  {
    var u := if n < 0 then n + TwoTo32 else n;
    var q1 := u / 256;
    var q2 := q1 / 256;
    var q3 := q2 / 256;
    assert u == (u % 256) + 256 * ((q1 % 256) + 256 * ((q2 % 256) + 256 * q3));
    var v := b[0] as int + 256 * (b[1] as int + 256 * (b[2] as int + 256 * (b[3] as int)));
    DivMod256(v, b[1] as int + 256 * (b[2] as int + 256 * (b[3] as int)), b[0] as int);
    DivMod256(b[1] as int + 256 * (b[2] as int + 256 * (b[3] as int)), b[2] as int + 256 * (b[3] as int), b[1] as int);
    DivMod256(b[2] as int + 256 * (b[3] as int), b[3] as int, b[2] as int);
    assert b[3] as int / 256 == 0;
    var m := ToInt32(b);
    assert (if m < 0 then m + TwoTo32 else m) == v;
  }

  /** A frame: the payload's length, then the payload. */
  function EncodeFrame(payload: seq<byte>): (f: seq<byte>)
    requires |payload| < TwoTo31
    ensures |f| == 4 + |payload| && f[4..] == payload
  {
    Int32Bytes(|payload|) + payload
  }

  /** What `HandleTcpClient` recovers from the bytes a connection delivers: nothing when the
    * stream ends inside the length or inside the payload, or when the length is negative
    * (allocating the buffer throws); otherwise exactly `length` bytes after the length,
    * whatever follows them. */
  function DecodeFrame(s: seq<byte>): (r: Option<seq<byte>>)
    ensures |s| < 4 ==> r.None?
    ensures |s| >= 4 && ToInt32(s[..4]) < 0 ==> r.None?
    ensures |s| >= 4 && 0 <= ToInt32(s[..4]) ==>
      (r.Some? <==> ToInt32(s[..4]) <= |s| - 4)
    ensures r.Some? ==> |s| >= 4 && |r.value| == ToInt32(s[..4]) && s[4..4 + |r.value|] == r.value
  {
    if |s| < 4 then None
    else
      var n := ToInt32(s[..4]);
      if n < 0 || |s| - 4 < n then None else Some(s[4..4 + n])
  }

  /** The reader recovers every payload the writer frames, whatever bytes follow it. */
  lemma FrameRoundTrip(payload: seq<byte>, trailing: seq<byte>)
    requires |payload| < TwoTo31
    ensures DecodeFrame(EncodeFrame(payload) + trailing) == Some(payload)
  {
    var s := EncodeFrame(payload) + trailing;
    assert s[..4] == Int32Bytes(|payload|);
    Int32RoundTrip(|payload|, s[..4]);
    assert s[4..4 + |payload|] == payload;
  }

  /** A cut-short frame yields nothing. */
  lemma TruncatedFrameRejected(payload: seq<byte>, keep: nat)
    requires |payload| < TwoTo31 && keep < 4 + |payload|
    ensures DecodeFrame(EncodeFrame(payload)[..keep]) == None
  {
    var f := EncodeFrame(payload);
    if keep >= 4 {
      assert f[..keep][..4] == Int32Bytes(|payload|);
      Int32RoundTrip(|payload|, f[..keep][..4]);
    }
  }

  /** The network stream of one accepted connection: the bytes it will deliver and how many
    * have been read. `Read` may return fewer bytes than asked for, but at least one unless
    * the peer has closed the connection. */
  class ByteStream {
    var data: seq<byte>
    var pos: nat

    constructor (data: seq<byte>)
      ensures this.data == data && pos == 0
    {
      this.data := data;
      pos := 0;
    }

    function Remaining(): seq<byte>
      reads this
      requires pos <= |data|
    {
      data[pos..]
    }

    /** `stream.Read(buffer, offset, count)`. */
    method Read(buffer: array<byte>, offset: nat, count: nat) returns (read: nat)
      requires pos <= |data| && offset + count <= buffer.Length
      modifies this, buffer
      ensures data == old(data) && pos == old(pos) + read <= |data|
      ensures read <= count
      ensures read == 0 <==> count == 0 || old(pos) == |data|
      ensures buffer[..] == old(buffer[..offset]) + data[old(pos)..pos] + old(buffer[offset + read..])
    {
      var available := |data| - pos;
      var most := if count < available then count else available;
      if most == 0 {
        read := 0;
      } else {
        read :| 0 < read <= most;
      }
      forall k | 0 <= k < read {
        buffer[offset + k] := data[pos + k];
      }
      pos := pos + read;
    }
  }

  /** One read loop of `HandleTcpClient`: reads until the buffer is full, and gives up when
    * the stream ends first. */
  method ReadFully(stream: ByteStream, buffer: array<byte>) returns (complete: bool)
    requires stream.pos <= |stream.data|
    modifies stream, buffer
    ensures stream.data == old(stream.data) && stream.pos <= |stream.data|
    ensures complete <==> buffer.Length <= |old(stream.Remaining())|
    ensures complete ==>
      buffer[..] == old(stream.Remaining())[..buffer.Length] && stream.pos == old(stream.pos) + buffer.Length
  {
    ghost var rest := stream.Remaining();
    ghost var start := stream.pos;
    var bytesRead := 0;
    while bytesRead < buffer.Length
      invariant 0 <= bytesRead <= buffer.Length && bytesRead <= |rest|
      invariant stream.data == old(stream.data) && stream.pos == start + bytesRead
      invariant buffer[..bytesRead] == rest[..bytesRead]
      decreases buffer.Length - bytesRead
    {
      var read := stream.Read(buffer, bytesRead, buffer.Length - bytesRead);
      if read == 0 {
        return false;
      }
      assert buffer[..bytesRead + read] == rest[..bytesRead + read];
      bytesRead := bytesRead + read;
    }
    assert buffer[..] == buffer[..bytesRead];
    return true;
  }

  /** The two read loops of `HandleTcpClient`: the 4 length bytes, then the payload. */
  method ReadFrame(stream: ByteStream) returns (payload: Option<seq<byte>>)
    requires stream.pos <= |stream.data|
    modifies stream
    ensures payload == DecodeFrame(old(stream.Remaining()))
  {
    ghost var rest := stream.Remaining();
    var lengthBuffer := new byte[4];
    var complete := ReadFully(stream, lengthBuffer);
    if !complete {
      return None;
    }
    var dataLength := ToInt32(lengthBuffer[..]);
    if dataLength < 0 {
      return None;
    }
    assert stream.Remaining() == rest[4..];
    var buffer := new byte[dataLength];
    complete := ReadFully(stream, buffer);
    if !complete {
      return None;
    }
    assert buffer[..] == rest[4..4 + dataLength];
    payload := Some(buffer[..]);
  }
}
