/**
 Messages on a byte stream: a length, then that many bytes. The stream is
 reliable: a read gets what it asks for unless less is there.
 */
module Framing {
  import opened Words
  import opened Gobber
  import opened Wire
  import opened Buffers
  import opened Schema
  import opened Readers
  import opened RoundTrip
  import opened StructEncoder
  import opened StructDecoder

  class Pipe {
    var data: bytes

    constructor ()
      ensures data == []
    {
      data := [];
    }

    method Write(s: bytes)
      modifies this
      ensures data == old(data) + s
    {
      data := data + s;
    }

    method Read(dst: array<byte>, at: nat, len: nat) returns (n: nat)
      requires at + len <= dst.Length
      modifies this, dst
      ensures n == if len <= |old(data)| then len else |old(data)|
      ensures dst[..] == old(dst[..at]) + old(data)[..n] + old(dst[at + n..])
      ensures data == old(data)[n..]
    {
      n := if len <= |data| then len else |data|;
      Memcpy(dst, at, data[..n]);
      data := data[n..];
    }
  }

  // ---------------------------------------------------------------- frames

  function Frame(m: bytes): bytes
    requires |m| <= INT_MAX
  {
    EncBytes(m)
  }

  datatype FrameDec = NoFrame | AFrame(m: bytes, rest: bytes)

  /** The first message of a stream. */
  function NextFrame(s: bytes): FrameDec {
    match DecU(s)
    case Short(_) => NoFrame
    case Got(len, t) => if len <= |t| then AFrame(t[..len], t[len..]) else NoFrame
  }

  lemma {:induction false} FrameRoundTrip(m: bytes, rest: bytes)
    requires |m| <= INT_MAX
    ensures NextFrame(Frame(m) + rest) == AFrame(m, rest)
    ensures DecU(Frame(m) + rest) == Got(|m|, m + rest) && 1 <= PrefixLength(Frame(m) + rest) <= 9
  {
    hide DecU, EncU;
    assert Frame(m) + rest == EncU(|m|) + (m + rest);
    UnsignedRoundTrip(|m|, m + rest);
    assert (m + rest)[..|m|] == m && (m + rest)[|m|..] == rest;
  }

  /** The number of bytes of the length in front of a message. */
  function PrefixLength(s: bytes): nat {
    match DecU(s) case Short(_) => 0 case Got(_, t) => |s| - |t|
  }

  /** The first byte alone is the length, or tells how long the length is: one more read completes it. */
  lemma {:induction false} FirstByteTells(s: bytes)
    requires DecU(s).Got?
    ensures var k := PrefixLength(s);
            1 <= k <= |s| && DecU(s[..k]) == Got(DecU(s).v, []) && DecU(s).rest == s[k..] &&
            (k > 1 ==> DecU(s[..1]) == Short(k))
  {
    if s[0] < 128 {
      assert s[..1][1..] == [];
    } else {
      var n := 256 - s[0];
      var p := s[..n + 1];
      assert p[1..n + 1] == s[1..n + 1] && p[n + 1..] == [];
    }
  }

  function Frames(ms: seq<bytes>): bytes
    requires forall m | m in ms :: |m| <= INT_MAX
  {
    if ms == [] then [] else Frame(ms[0]) + Frames(ms[1..])
  }

  lemma {:induction false} FramesSpelled(ms: seq<bytes>)
    requires forall m | m in ms :: |m| <= INT_MAX
    ensures Frames(ms) == Concat(seq(|ms|, i requires 0 <= i < |ms| => EncU(|ms[i]|) + ms[i]))
  {
    hide EncU;
    if ms != [] {
      FramesSpelled(ms[1..]);
      assert seq(|ms|, i requires 0 <= i < |ms| => EncU(|ms[i]|) + ms[i])[1..]
          == seq(|ms| - 1, i requires 0 <= i < |ms| - 1 => EncU(|ms[1..][i]|) + ms[1..][i]);
    }
  }

  // ---------------------------------------------------------------- the buffer calls

  method Writem(enc: Buffer, fd: Pipe) returns (n: int)
    requires enc.Valid()
    modifies fd
    ensures fd.data == old(fd.data) + Frame(enc.Written()) && n == |Frame(enc.Written())|
    ensures fd.data == old(fd.data) + (EncU(enc.count) + enc.Written())
  {
    hide EncU;
    var tmp := new byte[16];
    n := EncodeU64(tmp, 0, 16, enc.count);
    fd.Write(tmp[..n]);
    fd.Write(enc.buf[..enc.count]);
    Regroup(old(fd.data), EncU(enc.count), enc.Written());
    return n + enc.count;
  }

  /** Decodes an unsigned number from the first `k` bytes of a local array, through a buffer made over it. */
  method DecodeFrom(tmp: array<byte>, k: nat) returns (n: int, v: u64)
    requires k <= tmp.Length <= INT_MAX
    ensures match DecU(tmp[..k])
            case Short(need) => n == -need < 0
            case Got(u, rest) => n == k - |rest| > 0 && v == u
  {
    hide DecU;
    var gbuf := new Buffer.Make(tmp, k);
    assert gbuf.Unread() == tmp[..k];
    n, v := gbuf.DecodeValueUint64();
  }

  /** The number of bytes that the length at the start of `s` takes, as far as its first byte tells. */
  function PrefixNeed(s: bytes): int {
    match DecU(s) case Short(need) => need case Got(_, t) => |s| - |t|
  }

  /** An unfinished length: its first byte tells how many bytes are missing. */
  lemma {:induction false} UnfinishedPrefix(s: bytes)
    requires DecU(s).Short? && s != []
    ensures DecU(s[..1]) == DecU(s) && PrefixNeed(s) > |s|
  {
  }

  /** Reads the length: one byte, and if that is not all of it, the rest of it. */
  method ReadPrefix(fd: Pipe) returns (ok: bool, mlen: u64, nc: nat)
    requires fd.data != [] && PrefixNeed(fd.data) <= 12
    modifies fd
    ensures ok <==> DecU(old(fd.data)).Got?
    ensures ok ==> Got(mlen, fd.data) == DecU(old(fd.data))
    // a length of one byte goes uncounted
    ensures ok ==> nc == if |old(fd.data)| - |fd.data| == 1 then 0 else |old(fd.data)| - |fd.data|
  {
    hide DecU, FromBigEndian, Pow256, ToInt32;
    ghost var s := fd.data;
    if DecU(s).Got? {
      FirstByteTells(s);
    } else {
      UnfinishedPrefix(s);
    }
    var tmp := new byte[12];
    var got := fd.Read(tmp, 0, 1);
    assert tmp[..1] == s[..1];
    var n;
    ok, nc := true, 0;
    n, mlen := DecodeFrom(tmp, 1);
    if n < 0 {
      nc := -(n + 1);
      got := fd.Read(tmp, 1, nc);
      if got < nc {
        return false, mlen, nc;
      }
      nc := nc + 1;
      assert tmp[..nc] == s[..nc];
      n, mlen := DecodeFrom(tmp, nc);
    }
  }

  /** The second half of `glme_buf_readm`: makes room, clears the buffer and reads the contents into it. If the
      stream has fewer bytes, the buffer's old ones stand for the missing. */
  method Fill(dec: Buffer, fd: Pipe, mlen: nat)
    requires dec.Valid()
    requires mlen <= dec.buflen || (dec.reliable && dec.Resizable() && mlen <= INT_MAX)
    modifies dec, dec.buf, fd
    ensures dec.Valid() && (dec.buf == old(dec.buf) || fresh(dec.buf))
    ensures dec.count == mlen && dec.Unread() == dec.Written()
    ensures var got := if mlen <= |old(fd.data)| then mlen else |old(fd.data)|;
            dec.Written()[..got] == old(fd.data)[..got] && fd.data == old(fd.data)[got..]
    ensures dec.buflen >= old(dec.buflen) && dec.user == old(dec.user)
    ensures old(dec.Resizable()) ==> dec.Resizable()
  {
    if mlen > dec.buflen {
      var r := dec.Resize(mlen - dec.buflen);
    }
    dec.count, dec.current := 0, 0;
    var got := fd.Read(dec.buf, 0, mlen);
    dec.count := mlen;
    assert dec.buf[..got] == old(fd.data)[..got];
  }

  /** Reads one message into a buffer that is large enough or can grow. At the end of the stream the code is
      zero. An unfinished length is refused, and so is a message above a non-zero `maxlen`; contents that
      are not all there are not. */
  method Readm(dec: Buffer, fd: Pipe, maxlen: nat) returns (n: int)
    requires dec.Valid() && PrefixNeed(fd.data) <= 12
    requires DecU(fd.data).Got? ==>
               var mlen := DecU(fd.data).v;
               0 < maxlen < mlen || mlen <= dec.buflen || (dec.reliable && dec.Resizable() && mlen <= INT_MAX)
    modifies dec, dec.buf, fd
    ensures dec.Valid() && (dec.buf == old(dec.buf) || fresh(dec.buf))
    ensures match DecU(old(fd.data))
            case Short(_) => n == (if old(fd.data) == [] then 0 else -1) && dec.Written() == old(dec.Written())
            case Got(mlen, t) =>
              if 0 < maxlen < mlen then n == -1 && dec.Written() == old(dec.Written()) && fd.data == t
              else
                var got := if mlen <= |t| then mlen else |t|;
                n == mlen + (if |old(fd.data)| - |t| == 1 then 0 else |old(fd.data)| - |t|) &&
                dec.count == mlen && dec.Unread() == dec.Written() &&
                dec.Written()[..got] == t[..got] && fd.data == t[got..]
    ensures dec.buflen >= old(dec.buflen) && dec.user == old(dec.user)
    ensures old(dec.Resizable()) ==> dec.Resizable()
  {
    hide DecU;
    NothingThere();
    if fd.data == [] {
      return 0;
    }
    var ok, mlen, nc := ReadPrefix(fd);
    if !ok {
      return -1;
    }
    if maxlen > 0 && mlen > maxlen {
      return -1;
    }
    Fill(dec, fd, mlen);
    return mlen + nc;
  }

  lemma {:induction false} NothingThere()
    ensures DecU([]).Short?
  {
  }

  // ---------------------------------------------------------------- whole runs

  method WriteOne(fd: Pipe, m: bytes)
    requires |m| <= INT_MAX
    modifies fd
    ensures fd.data == old(fd.data) + Frame(m)
  {
    hide Frame;
    var data := new byte[|m|];
    Memcpy(data, 0, m);
    var enc := new Buffer.Make(data, |m|);
    assert enc.Written() == m;
    var n := Writem(enc, fd);
  }

  method WriteAll(fd: Pipe, ms: seq<bytes>)
    requires forall m | m in ms :: |m| <= INT_MAX
    modifies fd
    ensures fd.data == old(fd.data) + Frames(ms)
    ensures fd.data == old(fd.data) + Concat(seq(|ms|, i requires 0 <= i < |ms| => EncU(|ms[i]|) + ms[i]))
  {
    FramesSpelled(ms);
    hide Frame;
    var i := 0;
    assert ms[0..] == ms;
    while i < |ms|
      invariant 0 <= i <= |ms|
      invariant fd.data + Frames(ms[i..]) == old(fd.data) + Frames(ms)
    {
      assert ms[i..][0] == ms[i] && ms[i..][1..] == ms[i + 1..];
      Regroup(fd.data, Frame(ms[i]), Frames(ms[i + 1..]));
      WriteOne(fd, ms[i]);
      i := i + 1;
    }
    assert ms[i..] == [];
  }

  /** Reads the next message into a buffer. */
  method ReadNext(fd: Pipe, dec: Buffer, maxlen: nat, ghost m: bytes, ghost rest: bytes)
    requires |m| <= INT_MAX && (maxlen == 0 || |m| <= maxlen) && fd.data == Frame(m) + rest
    requires dec.Valid() && ((dec.reliable && dec.Resizable()) || |m| <= dec.buflen)
    modifies fd, dec, dec.buf
    ensures dec.Valid() && (dec.buf == old(dec.buf) || fresh(dec.buf))
    ensures dec.Written() == m && dec.Unread() == m && fd.data == rest
    ensures dec.buflen >= old(dec.buflen) && (old(dec.Resizable()) ==> dec.Resizable())
  {
    hide DecU, Frame;
    FrameRoundTrip(m, rest);
    var n := Readm(dec, fd, maxlen);
    assert (m + rest)[..|m|] == m && (m + rest)[|m|..] == rest;
    assert dec.Written()[..|m|] == dec.Written();
  }

  /** Reads as many messages as were written, through one buffer. */
  method ReadAll(fd: Pipe, dec: Buffer, k: nat, maxlen: nat, ghost ms: seq<bytes>, ghost rest: bytes)
    returns (out: seq<bytes>)
    requires |ms| == k && (forall m | m in ms :: |m| <= INT_MAX && (maxlen == 0 || |m| <= maxlen))
    requires fd.data == Frames(ms) + rest
    requires dec.Valid() && ((dec.reliable && dec.Resizable()) || forall m | m in ms :: |m| <= dec.buflen)
    modifies fd, dec, dec.buf
    ensures out == ms && fd.data == rest
  {
    hide Frame;
    out := [];
    var i := 0;
    assert ms[0..] == ms;
    while i < k
      invariant 0 <= i <= k && out == ms[..i]
      invariant dec.Valid() && (dec.buf == old(dec.buf) || fresh(dec.buf))
      invariant dec.buflen >= old(dec.buflen) && (old(dec.Resizable()) ==> dec.Resizable())
      invariant fd.data == Frames(ms[i..]) + rest
    {
      assert ms[i..][0] == ms[i] && ms[i..][1..] == ms[i + 1..];
      Regroup(Frame(ms[i]), Frames(ms[i + 1..]), rest);
      ReadNext(fd, dec, maxlen, ms[i], Frames(ms[i + 1..]) + rest);
      out := out + [dec.buf[..dec.count]];
      i := i + 1;
    }
    assert ms[k..] == [];
  }

  method EncodeAndWrite(env: Env, id: UserId, rec: seq<Field>, fd: Pipe, len: nat)
    requires Fits(env, Fields(env, id), rec) && |EncStruct(env, id, rec)| <= len <= INT_MAX
    modifies fd
    ensures fd.data == old(fd.data) + Frame(EncStruct(env, id, rec))
  {
    hide EncStruct, Fits, Frame;
    var encoder := new Buffer(len, false);
    var n := StructEncoder.EncodeStruct(encoder, env, id, rec);
    assert encoder.Written() == EncStruct(env, id, rec);
    n := Writem(encoder, fd);
  }

  method ReadAndDecode(env: Env, id: UserId, fd: Pipe, ghost message: bytes, ghost rest: bytes)
    returns (rec: seq<Field>)
    requires |message| <= INT_MAX && fd.data == Frame(message) + rest && DecStruct(env, id, message).Record?
    modifies fd
    ensures rec == DecStruct(env, id, message).vals && fd.data == rest
  {
    assert DecStruct(env, id, message) == DecMessage(env, id, id, message);
    hide *;
    var decoder := new Buffer(0, true);
    ReadNext(fd, decoder, 0, message, rest);
    var n;
    n, rec := StructDecoder.DecodeStruct(decoder, env, id, id);
  }

  /** From one process to another: encode, write, read, decode. A reader with a later schema sees the
      sent value with defaults for the fields it alone knows. */
  method SendStruct(env: Env, later: Env, id: UserId, rec: seq<Field>, len: nat) returns (received: seq<Field>)
    requires Extends(env, later) && Fits(env, Fields(env, id), rec)
    requires |EncStruct(env, id, rec)| <= len <= INT_MAX
    ensures received == SeenFields(later, Fields(later, id), rec)
    ensures GetsAll(later, Fields(later, id), rec, received)
  {
    hide EncStruct, DecStruct, Fits, Frame, GetsAll;
    ghost var message := EncStruct(env, id, rec);
    EvolvedStruct(env, later, id, rec, []);
    assert message + [] == message && Frame(message) + [] == Frame(message);
    var fd := new Pipe();
    EncodeAndWrite(env, id, rec, fd, len);
    assert [] + Frame(message) == Frame(message);
    received := ReadAndDecode(later, id, fd, message, []);
  }
}
