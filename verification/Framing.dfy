/** The byte stream under the protocol: a big-endian length, that many bytes of JSON, and for a chunk its
    raw payload. JSON itself is a parameter. */
module Framing {
  import opened Prelude
  import opened TransferModel

  const MAX_MESSAGE: nat := 10 * 1024 * 1024
  const TWO_32: nat := 0x1_0000_0000

  /** `decode` undoes `encode`; `payload` is the number of raw bytes a header announces, 0 for a control message. */
  datatype Codec<!M> = Codec(encode: M -> Bytes, decode: Bytes -> Option<M>, payload: M -> nat)

  ghost predicate IsCodec<M(!new)>(c: Codec<M>) {
    forall m: M :: c.decode(c.encode(m)) == Some(m)
  }

  datatype Frame<M> = Frame(header: M, data: Bytes)

  ghost predicate ValidFrame<M>(c: Codec<M>, f: Frame<M>) {
    |c.encode(f.header)| <= MAX_MESSAGE && |f.data| == c.payload(f.header)
  }

  // ---- the length prefix ----

  /** `(len as u32).to_be_bytes()`: the length is cut to 32 bits. */
  function BigEndian(n: nat): (r: Bytes)
    ensures |r| == 4
  {
    var k := n % TWO_32;
    [k / 0x100_0000, k / 0x1_0000 % 0x100, k / 0x100 % 0x100, k % 0x100]
  }

  function FromBigEndian(b: Bytes): nat
    requires |b| == 4
  {
    (((b[0] as int) * 0x100 + b[1] as int) * 0x100 + b[2] as int) * 0x100 + b[3] as int
  }

  lemma PrefixRoundTrip(n: nat)
    ensures FromBigEndian(BigEndian(n)) == n % 4294967296
  {
    var k := n % TWO_32;
    var a, b := k / 0x100, k / 0x1_0000;
    assert a / 0x100 == b && b / 0x100 == k / 0x100_0000;
  }

  /** Byte by byte, the most significant first. */
  lemma BigEndianInBytes(n: nat)
    requires n < 4294967296
    ensures BigEndian(n) == [n / 16777216, n / 65536 % 256, n / 256 % 256, n % 256]
    ensures forall a: Byte, b: Byte, c: Byte, d: Byte ::
              FromBigEndian([a, b, c, d]) == 16777216 * a as int + 65536 * b as int + 256 * c as int + d as int
  {}

  // ---- frames as values ----

  function Encode<M>(c: Codec<M>, f: Frame<M>): Bytes {
    var json := c.encode(f.header);
    BigEndian(|json|) + json + f.data
  }

  function EncodeAll<M>(c: Codec<M>, frames: seq<Frame<M>>): Bytes {
    if frames == [] then [] else Encode(c, frames[0]) + EncodeAll(c, frames[1..])
  }

  datatype Stop = Closed | TooLarge | Malformed

  datatype Read<M> = Got(frame: Frame<M>, rest: Bytes) | Failed(stop: Stop)

  /** `read_message`, then `read_v2_payload` when the header announces raw bytes. */
  function ReadFrame<M>(c: Codec<M>, input: Bytes): (r: Read<M>)
    ensures r.Got? ==> |r.rest| < |input|
  {
    if |input| < 4 then Failed(Closed)
    else
      var n := FromBigEndian(input[..4]);
      var body := input[4..];
      if n > MAX_MESSAGE then Failed(TooLarge)
      else if |body| < n then Failed(Closed)
      else
        match c.decode(body[..n])
        case None => Failed(Malformed)
        case Some(m) =>
          if |body| < n + c.payload(m) then Failed(Closed)
          else Got(Frame(m, body[n..n + c.payload(m)]), body[n + c.payload(m)..])
  }

  function ReadAll<M>(c: Codec<M>, input: Bytes): (seq<Frame<M>>, Stop)
    decreases |input|
  {
    match ReadFrame(c, input)
    case Failed(stop) => ([], stop)
    case Got(frame, rest) =>
      var (frames, stop) := ReadAll(c, rest);
      ([frame] + frames, stop)
  }

  // ---- round trips ----

  lemma FrameRoundTrip<M(!new)>(c: Codec<M>, f: Frame<M>, rest: Bytes)
    requires IsCodec(c) && ValidFrame(c, f)
    ensures ReadFrame(c, Encode(c, f) + rest) == Got(f, rest)
  {
    var json := c.encode(f.header);
    PrefixRoundTrip(|json|);
    FourParts(BigEndian(|json|), json, f.data, rest);
  }

  lemma FourParts(prefix: Bytes, json: Bytes, data: Bytes, rest: Bytes)
    requires |prefix| == 4
    ensures var input := prefix + json + data + rest;
            input[..4] == prefix && input[4..][..|json|] == json &&
            input[4..][|json|..|json| + |data|] == data && input[4..][|json| + |data|..] == rest
  {
    assert (prefix + json + data + rest)[4..] == json + data + rest;
  }

  /** How many frames lie wholly within the first `cut` bytes. */
  function WholeFrames<M>(c: Codec<M>, frames: seq<Frame<M>>, cut: nat): (n: nat)
    ensures n <= |frames|
  {
    if frames == [] || cut < |Encode(c, frames[0])| then 0
    else 1 + WholeFrames(c, frames[1..], cut - |Encode(c, frames[0])|)
  }

  lemma {:induction false} WholeFramesExactly<M>(c: Codec<M>, frames: seq<Frame<M>>, cut: nat)
    ensures var n := WholeFrames(c, frames, cut);
            |EncodeAll(c, frames[..n])| <= cut &&
            (n < |frames| ==> cut < |EncodeAll(c, frames[..n + 1])|)
  {
    if frames == [] {
    } else if cut < |Encode(c, frames[0])| {
      assert frames[..1][1..] == [];
    } else {
      var rest := cut - |Encode(c, frames[0])|;
      WholeFramesExactly(c, frames[1..], rest);
      var n := WholeFrames(c, frames[1..], rest);
      assert frames[..n + 1][1..] == frames[1..][..n];
      if n + 1 < |frames| {
        assert frames[..n + 2][1..] == frames[1..][..n + 1];
      }
    }
  }

  /** A stream cut anywhere gives back the whole frames it still holds, then the end of the connection. */
  lemma {:induction false} CutStreamRoundTrip<M(!new)>(c: Codec<M>, frames: seq<Frame<M>>, cut: nat)
    requires IsCodec(c) && forall f :: f in frames ==> ValidFrame(c, f)
    requires cut <= |EncodeAll(c, frames)|
    ensures ReadAll(c, EncodeAll(c, frames)[..cut]) == (frames[..WholeFrames(c, frames, cut)], Closed)
  {
    if frames != [] {
      if cut < |Encode(c, frames[0])| {
        CutInFirst(c, frames, cut);
      } else {
        CutStreamRoundTrip(c, frames[1..], cut - |Encode(c, frames[0])|);
        CutLater(c, frames, cut);
      }
    }
  }

  lemma CutInFirst<M(!new)>(c: Codec<M>, frames: seq<Frame<M>>, cut: nat)
    requires IsCodec(c) && frames != [] && ValidFrame(c, frames[0]) && cut < |Encode(c, frames[0])|
    ensures ReadAll(c, EncodeAll(c, frames)[..cut]) == ([], Closed)
  {
    CutFrame(c, frames[0], cut);
    CutInside(Encode(c, frames[0]), EncodeAll(c, frames[1..]), cut);
  }

  lemma CutLater<M(!new)>(c: Codec<M>, frames: seq<Frame<M>>, cut: nat)
    requires IsCodec(c) && frames != [] && ValidFrame(c, frames[0])
    requires |Encode(c, frames[0])| <= cut <= |EncodeAll(c, frames)|
    requires var rest := cut - |Encode(c, frames[0])|;
             ReadAll(c, EncodeAll(c, frames[1..])[..rest]) == (frames[1..][..WholeFrames(c, frames[1..], rest)], Closed)
    ensures ReadAll(c, EncodeAll(c, frames)[..cut]) == (frames[..WholeFrames(c, frames, cut)], Closed)
  {
    var head, tail := Encode(c, frames[0]), EncodeAll(c, frames[1..]);
    var n := WholeFrames(c, frames[1..], cut - |head|);
    SplitCut(head, tail, cut);
    ReadFirst(c, frames[0], tail[..cut - |head|], frames[1..][..n], Closed);
    PrependPrefix(frames, n);
  }

  lemma CutInside(head: Bytes, tail: Bytes, cut: nat)
    requires cut <= |head|
    ensures (head + tail)[..cut] == head[..cut]
  {}

  lemma SplitCut(head: Bytes, tail: Bytes, cut: nat)
    requires |head| <= cut <= |head| + |tail|
    ensures (head + tail)[..cut] == head + tail[..cut - |head|]
  {}

  lemma PrependPrefix<T>(s: seq<T>, n: nat)
    requires n < |s|
    ensures [s[0]] + s[1..][..n] == s[..n + 1]
  {}

  lemma ReadFirst<M(!new)>(c: Codec<M>, f: Frame<M>, rest: Bytes, frames: seq<Frame<M>>, stop: Stop)
    requires IsCodec(c) && ValidFrame(c, f) && ReadAll(c, rest) == (frames, stop)
    ensures ReadAll(c, Encode(c, f) + rest) == ([f] + frames, stop)
  {
    FrameRoundTrip(c, f, rest);
  }

  lemma CutFrame<M(!new)>(c: Codec<M>, f: Frame<M>, cut: nat)
    requires IsCodec(c) && ValidFrame(c, f) && cut < |Encode(c, f)|
    ensures ReadFrame(c, Encode(c, f)[..cut]) == Failed(Closed)
  {
    var json := c.encode(f.header);
    if cut >= 4 {
      var body := (json + f.data)[..cut - 4];
      CutBody(BigEndian(|json|), json + f.data, cut);
      assert BigEndian(|json|) + (json + f.data) == Encode(c, f);
      PrefixRoundTrip(|json|);
      if |body| >= |json| {
        assert body[..|json|] == json;
      }
    }
  }

  lemma CutBody(prefix: Bytes, body: Bytes, cut: nat)
    requires |prefix| == 4 <= cut <= 4 + |body|
    ensures var input := (prefix + body)[..cut];
            input[..4] == prefix && input[4..] == body[..cut - 4]
  {}

  /** What is written is what is read, for every sequence of frames. */
  lemma StreamRoundTrip<M(!new)>(c: Codec<M>, frames: seq<Frame<M>>)
    requires IsCodec(c) && forall f :: f in frames ==> ValidFrame(c, f)
    ensures ReadAll(c, EncodeAll(c, frames)) == (frames, Closed)
  {
    var bytes := EncodeAll(c, frames);
    CutStreamRoundTrip(c, frames, |bytes|);
    assert bytes[..|bytes|] == bytes;
    AllFramesWhole(c, frames);
    assert frames[..|frames|] == frames;
  }

  lemma {:induction false} AllFramesWhole<M>(c: Codec<M>, frames: seq<Frame<M>>)
    ensures WholeFrames(c, frames, |EncodeAll(c, frames)|) == |frames|
  {
    if frames != [] {
      AllFramesWhole(c, frames[1..]);
    }
  }

  /** The writer does not check the size, so one frame survives exactly when its JSON is within the
      reader's limit: beyond it the frame is refused, or from 4 GiB on cut short by the 32-bit prefix. */
  lemma FrameSurvivesExactly<M(!new)>(c: Codec<M>, f: Frame<M>)
    requires IsCodec(c) && |f.data| == c.payload(f.header)
    ensures ReadFrame(c, Encode(c, f)) == Got(f, []) <==> |c.encode(f.header)| <= 10485760
  {
    var json, input := c.encode(f.header), Encode(c, f);
    PrefixRoundTrip(|json|);
    assert input[..4] == BigEndian(|json|);
    if |json| <= MAX_MESSAGE {
      assert input + [] == input;
      FrameRoundTrip(c, f, []);
    }
  }

  // ---- the stream as the program uses it ----

  class ByteStream<!M> {
    const codec: Codec<M>
    var pending: Bytes

    constructor (codec: Codec<M>)
      ensures this.codec == codec && pending == []
    {
      this.codec, pending := codec, [];
    }

    method WriteAll(bytes: Bytes)
      modifies this
      ensures pending == old(pending) + bytes
    {
      pending := pending + bytes;
    }

    /** `encode_message` and `write_v2_chunk`, three writes without an intermediate frame. */
    method WriteFrame(header: M, payload: Bytes)
      modifies this
      ensures pending == old(pending) + Encode(codec, Frame(header, payload))
    {
      var json := codec.encode(header);
      WriteAll(BigEndian(|json|));
      WriteAll(json);
      WriteAll(payload);
    }

    /** All `n` bytes, or the end of the connection. */
    method ReadExact(n: nat) returns (bytes: Option<Bytes>)
      modifies this
      ensures if n <= |old(pending)| then bytes == Some(old(pending)[..n]) && pending == old(pending)[n..]
              else bytes == None && pending == []
    {
      if n <= |pending| {
        bytes, pending := Some(pending[..n]), pending[n..];
      } else {
        bytes, pending := None, [];
      }
    }

    method ReadNext() returns (r: Read<M>)
      modifies this
      ensures r == ReadFrame(codec, old(pending))
      ensures r.Got? ==> pending == r.rest
    {
      var prefix := ReadExact(4);
      if prefix.None? {
        return Failed(Closed);
      }
      var n := FromBigEndian(prefix.value);
      if n > MAX_MESSAGE {
        return Failed(TooLarge);
      }
      var json := ReadExact(n);
      if json.None? {
        return Failed(Closed);
      }
      var m := codec.decode(json.value);
      if m.None? {
        return Failed(Malformed);
      }
      var data := ReadExact(codec.payload(m.value));
      if data.None? {
        return Failed(Closed);
      }
      r := Got(Frame(m.value, data.value), pending);
    }
  }
}
