/** The Sun .au codec of DTMF/src/audio.c: big-endian 32-bit header fields, 16-bit
    big-endian samples, and the six-field header. A `FILE *` is either NULL or an
    open stream, modelled as the bytes written so far (output) or the bytes not
    yet read (input). */
module Audio {

  type byte = x: int | 0 <= x < 0x100
  type u32 = x: int | 0 <= x < 0x1_0000_0000
  type i16 = x: int | -0x8000 <= x < 0x8000

  /** C's `EOF`, the failure status of every routine here (success is 0). */
  const Eof := -1

  datatype Stream = Null | Open(bytes: seq<byte>)

  /** Status of a write together with the stream afterwards. */
  datatype Written = Written(status: int, out: Stream)

  /** Result of a read: the value and the unread rest of the stream, or a failure
      (the value pointer is left alone). */
  datatype Fetched<T> = Fetched(value: T, rest: seq<byte>) | Failed

  /** Reference: the big-endian value of the four bytes at `i`. */
  function U32At(b: seq<byte>, i: nat): u32
    requires i + 4 <= |b|
  {
    (b[i] as int) * 0x100_0000 + (b[i + 1] as int) * 0x1_0000 + (b[i + 2] as int) * 0x100 + b[i + 3]
  }

  /** The four bytes `unit32_write_file` emits: `header & 0xff` after 24, 16, 8 and 0
      bits of right shift, most significant first. */
  function U32Bytes(h: u32): (r: seq<byte>)
    ensures |r| == 4 && U32At(r, 0) == h
  {
    var b4 := h % 0x100;
    var h1 := h / 0x100;
    var b3 := h1 % 0x100;
    var h2 := h1 / 0x100;
    var b2 := h2 % 0x100;
    var h3 := h2 / 0x100;
    assert h == ((h3 * 0x100 + b2) * 0x100 + b3) * 0x100 + b4;
    [h3 % 0x100, b2, b3, b4]
  }

  /** `unit32_write_file`: fails only on a NULL stream. */
  function WriteU32(out: Stream, h: u32): (r: Written)
    ensures r.status == 0 <==> out.Open?
    ensures out.Open? ==> r.out == Open(out.bytes + U32Bytes(h))
  {
    if out.Null? then Written(Eof, Null) else Written(0, Open(out.bytes + U32Bytes(h)))
  }

  /** `fgetc` on the byte stream: the byte at `k`, or -1 past the end. */
  function ByteOrEof(b: seq<byte>, k: nat): int {
    if k < |b| then b[k] else -1
  }

  /** `unit32_read_file`'s loop `v = (v << 8) + fgetc(in)` run four times in a 32-bit
      `int`; the result is given as its 32-bit pattern. A short read is not
      detected: each missing byte contributes -1. */
  function ReadU32(input: Stream): (r: Fetched<u32>)
    ensures input.Null? <==> r.Failed?
    ensures input.Open? && |input.bytes| >= 4 ==>
              r == Fetched(U32At(input.bytes, 0), input.bytes[4..])
    ensures input.Open? && |input.bytes| < 4 ==> r.value % 0x100 == 0xFF && r.rest == []
  {
    if input.Null? then Failed
    else
      var b := input.bytes;
      var v := (((ByteOrEof(b, 0) * 0x100 + ByteOrEof(b, 1)) * 0x100
                 + ByteOrEof(b, 2)) * 0x100 + ByteOrEof(b, 3)) % 0x1_0000_0000;
      var n := if |b| < 4 then |b| else 4;
      ShortReadLowByte(b);
      Fetched(v, b[n..])
  }

  /** Every 32-bit value survives a write and a read unchanged. */
  lemma U32RoundTrip(h: u32, rest: seq<byte>)
    ensures ReadU32(Open(U32Bytes(h) + rest)) == Fetched(h, rest)
  {
    var b := U32Bytes(h) + rest;
    assert b[..4] == U32Bytes(h) && b[4..] == rest;
    assert U32At(b, 0) == U32At(U32Bytes(h), 0);
  }

  lemma ShortReadLowByte(b: seq<byte>)
    ensures |b| < 4 ==>
      ((((ByteOrEof(b, 0) * 0x100 + ByteOrEof(b, 1)) * 0x100
         + ByteOrEof(b, 2)) * 0x100 + ByteOrEof(b, 3)) % 0x1_0000_0000) % 0x100 == 0xFF
  {
    if |b| < 4 {
      var x := ((ByteOrEof(b, 0) * 0x100 + ByteOrEof(b, 1)) * 0x100 + ByteOrEof(b, 2)) * 0x100;
      assert ByteOrEof(b, 3) == -1;
      ModLowByte(x / 0x100, -1);
    }
  }

  lemma ModLowByte(y: int, d: int)
    requires -1 <= d < 0x100
    ensures ((y * 0x100 + d) % 0x1_0000_0000) % 0x100 == d % 0x100
  {
    var x := y * 0x100 + d;
    var q := x / 0x1_0000_0000;
    var m := x % 0x1_0000_0000;
    assert m == 0x100 * (y - q * 0x100_0000) + d;
    ShiftMod(y - q * 0x100_0000, d);
  }

  lemma ShiftMod(z: int, d: int)
    ensures (0x100 * z + d) % 0x100 == d % 0x100
  {
  }

  /** A 16-bit sample as a signed value: the truncation that storing into an
      `int16_t` performs. */
  function ToInt16(x: int): (r: i16)
    ensures (x - r) % 0x1_0000 == 0
    ensures -0x8000 <= x < 0x8000 ==> r == x
  {
    var m := x % 0x1_0000;
    if m >= 0x8000 then m - 0x1_0000 else m
  }

  /** The two bytes `audio_write_sample` emits: the byte of `sample >> 8` (an
      arithmetic shift) and then `sample & 0xff`. */
  function SampleBytes(s: i16): (r: seq<byte>)
    ensures |r| == 2
    ensures (r[0] * 0x100 + r[1] - s) % 0x1_0000 == 0
  {
    [(s / 0x100) % 0x100, s % 0x100]
  }

  /** `audio_write_sample`: fails only on a NULL stream. */
  function WriteSample(out: Stream, s: i16): (r: Written)
    ensures r.status == 0 <==> out.Open?
    ensures out.Open? ==> r.out == Open(out.bytes + SampleBytes(s))
  {
    if out.Null? then Written(Eof, Null) else Written(0, Open(out.bytes + SampleBytes(s)))
  }

  /** `audio_read_sample`: the first byte is added into an `int16_t`, shifted left by
      eight (the `int` result truncated back to 16 bits), and the second byte added.
      A NULL stream or a missing byte gives EOF. */
  function ReadSample(input: Stream): (r: Fetched<i16>)
    ensures r.Fetched? <==> input.Open? && |input.bytes| >= 2
    ensures r.Fetched? ==> r.rest == input.bytes[2..]
    ensures r.Fetched? ==> (r.value - ((input.bytes[0] as int) * 0x100 + input.bytes[1])) % 0x1_0000 == 0
  {
    if input.Null? || |input.bytes| < 2 then Failed
    else
      var b := input.bytes;
      var shifted := (b[0] as int) * 0x100;
      assert ToInt16(0 + b[0]) == b[0] as int;
      var high := ToInt16(ToInt16(0 + b[0]) * 0x100);
      // `high` is `shifted` itself or `shifted` less 2^16
      assert high == shifted || high == shifted - 0x1_0000;
      Fetched(ToInt16(high + b[1]), b[2..])
  }

  /** Every 16-bit sample survives a write and a read unchanged. */
  lemma SampleRoundTrip(s: i16, rest: seq<byte>)
    ensures ReadSample(Open(SampleBytes(s) + rest)) == Fetched(s, rest)
  {
    var b := SampleBytes(s) + rest;
    assert b[..2] == SampleBytes(s) && b[2..] == rest;
  }

  /** The .au header as the C struct holds it. */
  datatype AudioHeader = AudioHeader(
    magic: u32,
    dataOffset: u32,
    dataSize: u32,
    encoding: u32,
    sampleRate: u32,
    channels: u32)

  /** The fixed field values the reader insists on: ".snd", 16-bit linear PCM,
      8000 samples per second, one channel. */
  const Magic: u32 := 0x2e736e64
  const Pcm16: u32 := 3
  const FrameRate: u32 := 8000
  const Mono: u32 := 1

  predicate Acceptable(h: AudioHeader) {
    h.magic == Magic && h.encoding == Pcm16 && h.sampleRate == FrameRate && h.channels == Mono
  }

  /** The 24 bytes of a header: six big-endian fields in declaration order. */
  function HeaderBytes(h: AudioHeader): (r: seq<byte>)
    ensures |r| == 24
    ensures U32At(r, 0) == h.magic && U32At(r, 4) == h.dataOffset && U32At(r, 8) == h.dataSize
    ensures U32At(r, 12) == h.encoding && U32At(r, 16) == h.sampleRate && U32At(r, 20) == h.channels
  {
    var r := U32Bytes(h.magic) + U32Bytes(h.dataOffset) + U32Bytes(h.dataSize)
             + U32Bytes(h.encoding) + U32Bytes(h.sampleRate) + U32Bytes(h.channels);
    assert r[0..4] == U32Bytes(h.magic) && r[4..8] == U32Bytes(h.dataOffset);
    assert r[8..12] == U32Bytes(h.dataSize) && r[12..16] == U32Bytes(h.encoding);
    assert r[16..20] == U32Bytes(h.sampleRate) && r[20..24] == U32Bytes(h.channels);
    r
  }

  /** `audio_write_header`: the six fields in order, stopping at the first failed
      write; only a NULL stream fails, and then at the first field. */
  function WriteHeader(out: Stream, h: AudioHeader): (r: Written)
    ensures r.status == 0 <==> out.Open?
    ensures out.Open? ==> r.out == Open(out.bytes + HeaderBytes(h))
  {
    var w1 := WriteU32(out, h.magic);
    if w1.status != 0 then Written(Eof, w1.out) else
    var w2 := WriteU32(w1.out, h.dataOffset);
    if w2.status != 0 then Written(Eof, w2.out) else
    var w3 := WriteU32(w2.out, h.dataSize);
    if w3.status != 0 then Written(Eof, w3.out) else
    var w4 := WriteU32(w3.out, h.encoding);
    if w4.status != 0 then Written(Eof, w4.out) else
    var w5 := WriteU32(w4.out, h.sampleRate);
    if w5.status != 0 then Written(Eof, w5.out) else
    var w6 := WriteU32(w5.out, h.channels);
    if w6.status != 0 then Written(Eof, w6.out) else
    assert out.bytes + HeaderBytes(h)
        == out.bytes + U32Bytes(h.magic) + U32Bytes(h.dataOffset) + U32Bytes(h.dataSize)
           + U32Bytes(h.encoding) + U32Bytes(h.sampleRate) + U32Bytes(h.channels);
    Written(0, w6.out)
  }

  /** Status of `audio_read_header`, the header struct as it leaves it (fields are
      stored one by one as they are accepted) and the unread rest of the stream. */
  datatype HeaderRead = HeaderRead(status: int, header: AudioHeader, rest: Stream)

  /** `audio_read_header` over a caller's struct `hp`. Fields are read in order; a
      field with a fixed value that does not match ends the read with EOF at once,
      the offset and size are stored whatever they are. */
  function ReadHeader(input: Stream, hp: AudioHeader): (r: HeaderRead)
    ensures r.status == 0 || r.status == Eof
  {
    match ReadU32(input)
    case Failed => HeaderRead(Eof, hp, input)
    case Fetched(magic, r1) =>
      if magic != Magic then HeaderRead(Eof, hp, Open(r1)) else
      var h1 := hp.(magic := Magic);
      match ReadU32(Open(r1))
      case Failed => HeaderRead(Eof, h1, Open(r1))
      case Fetched(offset, r2) =>
        var h2 := h1.(dataOffset := offset);
        match ReadU32(Open(r2))
        case Failed => HeaderRead(Eof, h2, Open(r2))
        case Fetched(size, r3) =>
          var h3 := h2.(dataSize := size);
          match ReadU32(Open(r3))
          case Failed => HeaderRead(Eof, h3, Open(r3))
          case Fetched(encoding, r4) =>
            if encoding != Pcm16 then HeaderRead(Eof, h3, Open(r4)) else
            var h4 := h3.(encoding := Pcm16);
            match ReadU32(Open(r4))
            case Failed => HeaderRead(Eof, h4, Open(r4))
            case Fetched(rate, r5) =>
              if rate != FrameRate then HeaderRead(Eof, h4, Open(r5)) else
              var h5 := h4.(sampleRate := FrameRate);
              match ReadU32(Open(r5))
              case Failed => HeaderRead(Eof, h5, Open(r5))
              case Fetched(channels, r6) =>
                if channels != Mono then HeaderRead(Eof, h5, Open(r6))
                else HeaderRead(0, h5.(channels := Mono), Open(r6))
  }

  /** The header is accepted exactly when the stream holds at least 24 bytes whose
      magic, encoding, rate and channel fields have the fixed values; the offset
      and size are then taken over unchanged and exactly 24 bytes are consumed. A
      truncated header is always rejected: a missing byte reads as 0xFF in the low
      byte of its field, and no fixed value ends in 0xFF. */
  lemma ReadHeaderAccepts(input: Stream, hp: AudioHeader)
    ensures var r := ReadHeader(input, hp);
      && (r.status == 0 <==>
            && input.Open? && |input.bytes| >= 24
            && U32At(input.bytes, 0) == Magic && U32At(input.bytes, 12) == Pcm16
            && U32At(input.bytes, 16) == FrameRate && U32At(input.bytes, 20) == Mono)
      && (r.status == 0 ==>
            && r.header == AudioHeader(Magic, U32At(input.bytes, 4), U32At(input.bytes, 8),
                                       Pcm16, FrameRate, Mono)
            && r.rest == Open(input.bytes[24..]))
  {
    if input.Open? {
      var b := input.bytes;
      if |b| >= 24 {
        ReadHeaderStopsAtRejection(b, hp);
        assert b[4..][4..] == b[8..] && b[8..][4..] == b[12..] && b[12..][4..] == b[16..];
        assert b[16..][4..] == b[20..] && b[20..][4..] == b[24..];
        assert U32At(b[4..], 0) == U32At(b, 4) && U32At(b[8..], 0) == U32At(b, 8);
        assert U32At(b[12..], 0) == U32At(b, 12) && U32At(b[16..], 0) == U32At(b, 16);
        assert U32At(b[20..], 0) == U32At(b, 20);
      } else {
        TruncatedHeaderRejected(b, hp);
      }
    }
  }

  /** Fewer than 24 bytes never make a valid header. */
  lemma TruncatedHeaderRejected(b: seq<byte>, hp: AudioHeader)
    requires |b| < 24
    ensures ReadHeader(Open(b), hp).status == Eof
  {
    var r1 := ReadU32(Open(b));
    if |b| >= 4 && r1.value == Magic {
      var r2 := ReadU32(Open(r1.rest));
      var r3 := ReadU32(Open(r2.rest));
      var r4 := ReadU32(Open(r3.rest));
      if |r3.rest| >= 4 && r4.value == Pcm16 {
        var r5 := ReadU32(Open(r4.rest));
        if |r4.rest| >= 4 && r5.value == FrameRate {
          assert |r5.rest| < 4;
        }
      }
    }
  }

  /** A rejected field ends the read: the fields after it are neither read nor
      stored, and the stream is left just past the rejected field. */
  lemma ReadHeaderStopsAtRejection(b: seq<byte>, hp: AudioHeader)
    ensures |b| >= 4 && U32At(b, 0) != Magic ==>
              ReadHeader(Open(b), hp) == HeaderRead(Eof, hp, Open(b[4..]))
    ensures |b| >= 16 && U32At(b, 0) == Magic && U32At(b, 12) != Pcm16 ==>
              ReadHeader(Open(b), hp)
              == HeaderRead(Eof, hp.(magic := Magic, dataOffset := U32At(b, 4), dataSize := U32At(b, 8)),
                            Open(b[16..]))
    ensures |b| >= 20 && U32At(b, 0) == Magic && U32At(b, 12) == Pcm16 && U32At(b, 16) != FrameRate ==>
              ReadHeader(Open(b), hp)
              == HeaderRead(Eof, hp.(magic := Magic, dataOffset := U32At(b, 4), dataSize := U32At(b, 8),
                                     encoding := Pcm16),
                            Open(b[20..]))
    ensures |b| >= 24 && U32At(b, 0) == Magic && U32At(b, 12) == Pcm16 && U32At(b, 16) == FrameRate
            && U32At(b, 20) != Mono ==>
              ReadHeader(Open(b), hp)
              == HeaderRead(Eof, hp.(magic := Magic, dataOffset := U32At(b, 4), dataSize := U32At(b, 8),
                                     encoding := Pcm16, sampleRate := FrameRate),
                            Open(b[24..]))
  {
    if |b| >= 16 {
      assert b[4..][4..] == b[8..] && b[8..][4..] == b[12..] && b[12..][4..] == b[16..];
      assert U32At(b[4..], 0) == U32At(b, 4) && U32At(b[8..], 0) == U32At(b, 8);
      assert U32At(b[12..], 0) == U32At(b, 12);
    }
    if |b| >= 20 {
      assert b[16..][4..] == b[20..];
      assert U32At(b[16..], 0) == U32At(b, 16);
    }
    if |b| >= 24 {
      assert b[20..][4..] == b[24..];
      assert U32At(b[20..], 0) == U32At(b, 20);
    }
  }

  /** A stream that ends inside a field: a fixed field cut short reads with 0xFF in
      its low byte and is rejected, so the read stops there with the stream used
      up; the fields before it are stored, the offset and size only as far as the
      bytes for them were there. */
  lemma ReadHeaderCutOff(b: seq<byte>, hp: AudioHeader)
    ensures |b| < 4 ==> ReadHeader(Open(b), hp) == HeaderRead(Eof, hp, Open([]))
    ensures 4 <= |b| < 16 && U32At(b, 0) == Magic ==>
              var r := ReadHeader(Open(b), hp);
              && r.status == Eof && r.rest == Open([])
              && r.header.magic == Magic && r.header.encoding == hp.encoding
              && r.header.sampleRate == hp.sampleRate && r.header.channels == hp.channels
              && (|b| >= 8 ==> r.header.dataOffset == U32At(b, 4))
              && (|b| >= 12 ==> r.header.dataSize == U32At(b, 8))
    ensures 16 <= |b| < 20 && U32At(b, 0) == Magic && U32At(b, 12) == Pcm16 ==>
              ReadHeader(Open(b), hp)
              == HeaderRead(Eof, hp.(magic := Magic, dataOffset := U32At(b, 4), dataSize := U32At(b, 8),
                                     encoding := Pcm16),
                            Open([]))
    ensures 20 <= |b| < 24 && U32At(b, 0) == Magic && U32At(b, 12) == Pcm16 && U32At(b, 16) == FrameRate ==>
              ReadHeader(Open(b), hp)
              == HeaderRead(Eof, hp.(magic := Magic, dataOffset := U32At(b, 4), dataSize := U32At(b, 8),
                                     encoding := Pcm16, sampleRate := FrameRate),
                            Open([]))
  {
    CutInMagic(b, hp);
    CutInEncoding(b, hp);
    CutInRate(b, hp);
    CutInChannels(b, hp);
  }

  /** Cut inside the magic field. */
  lemma CutInMagic(b: seq<byte>, hp: AudioHeader)
    ensures |b| < 4 ==> ReadHeader(Open(b), hp) == HeaderRead(Eof, hp, Open([]))
  {
    if |b| < 4 {
      var r1 := ReadU32(Open(b));
      assert r1.rest == [] && r1.value != Magic;
    }
  }

  /** Cut before the end of the encoding field, after a valid magic. */
  lemma CutInEncoding(b: seq<byte>, hp: AudioHeader)
    ensures 4 <= |b| < 16 && U32At(b, 0) == Magic ==>
            var r := ReadHeader(Open(b), hp);
            && r.status == Eof && r.rest == Open([])
            && r.header.magic == Magic && r.header.encoding == hp.encoding
            && r.header.sampleRate == hp.sampleRate && r.header.channels == hp.channels
            && (|b| >= 8 ==> r.header.dataOffset == U32At(b, 4))
            && (|b| >= 12 ==> r.header.dataSize == U32At(b, 8))
  {
    if 4 <= |b| < 16 && U32At(b, 0) == Magic {
      CutFieldsBeforeEncoding(b, hp);
    }
  }

  lemma CutFieldsBeforeEncoding(b: seq<byte>, hp: AudioHeader)
    requires 4 <= |b| < 16 && U32At(b, 0) == Magic
    ensures var r := ReadHeader(Open(b), hp);
            && r.status == Eof && r.rest == Open([])
            && r.header.magic == Magic && r.header.encoding == hp.encoding
            && r.header.sampleRate == hp.sampleRate && r.header.channels == hp.channels
            && (|b| >= 8 ==> r.header.dataOffset == U32At(b, 4))
            && (|b| >= 12 ==> r.header.dataSize == U32At(b, 8))
  {
    var r2 := ReadU32(Open(b[4..]));
    var r3 := ReadU32(Open(r2.rest));
    var r4 := ReadU32(Open(r3.rest));
    if |b| >= 8 {
      assert b[4..][4..] == b[8..];
      assert U32At(b[4..], 0) == U32At(b, 4);
    }
    if |b| >= 12 {
      assert b[8..][4..] == b[12..];
      assert U32At(b[8..], 0) == U32At(b, 8);
    }
    assert |r3.rest| < 4 && r4.rest == [];
    assert r4.value != Pcm16;
  }

  /** Cut inside the rate field, after valid earlier fields. */
  lemma CutInRate(b: seq<byte>, hp: AudioHeader)
    ensures 16 <= |b| < 20 && U32At(b, 0) == Magic && U32At(b, 12) == Pcm16 ==>
            ReadHeader(Open(b), hp)
            == HeaderRead(Eof, hp.(magic := Magic, dataOffset := U32At(b, 4), dataSize := U32At(b, 8),
                                   encoding := Pcm16),
                          Open([]))
  {
    if 16 <= |b| < 20 && U32At(b, 0) == Magic && U32At(b, 12) == Pcm16 {
      assert b[4..][4..] == b[8..] && b[8..][4..] == b[12..] && b[12..][4..] == b[16..];
      assert U32At(b[4..], 0) == U32At(b, 4) && U32At(b[8..], 0) == U32At(b, 8);
      assert U32At(b[12..], 0) == U32At(b, 12);
      var r5 := ReadU32(Open(b[16..]));
      assert r5.rest == [] && r5.value != FrameRate;
    }
  }

  /** Cut inside the channel field, after valid earlier fields. */
  lemma CutInChannels(b: seq<byte>, hp: AudioHeader)
    ensures 20 <= |b| < 24 && U32At(b, 0) == Magic && U32At(b, 12) == Pcm16 && U32At(b, 16) == FrameRate ==>
            ReadHeader(Open(b), hp)
            == HeaderRead(Eof, hp.(magic := Magic, dataOffset := U32At(b, 4), dataSize := U32At(b, 8),
                                   encoding := Pcm16, sampleRate := FrameRate),
                          Open([]))
  {
    if 20 <= |b| < 24 && U32At(b, 0) == Magic && U32At(b, 12) == Pcm16 && U32At(b, 16) == FrameRate {
      assert b[4..][4..] == b[8..] && b[8..][4..] == b[12..] && b[12..][4..] == b[16..];
      assert U32At(b[4..], 0) == U32At(b, 4) && U32At(b[8..], 0) == U32At(b, 8);
      assert U32At(b[12..], 0) == U32At(b, 12);
      assert b[16..][4..] == b[20..];
      assert U32At(b[16..], 0) == U32At(b, 16);
      var r6 := ReadU32(Open(b[20..]));
      assert r6.rest == [] && r6.value != Mono;
    }
  }

  /** Writing a header and reading it back reproduces it when it carries the fixed
      values, and is rejected otherwise; the bytes after the header are untouched. */
  lemma HeaderRoundTrip(h: AudioHeader, rest: seq<byte>, hp: AudioHeader)
    ensures var r := ReadHeader(Open(HeaderBytes(h) + rest), hp);
      && (r.status == 0 <==> Acceptable(h))
      && (Acceptable(h) ==> r.header == h && r.rest == Open(rest))
  {
    var b := HeaderBytes(h) + rest;
    assert b[..24] == HeaderBytes(h) && b[24..] == rest;
    forall i | i in {0, 4, 8, 12, 16, 20} ensures U32At(b, i) == U32At(HeaderBytes(h), i) {
      assert b[i..i + 4] == HeaderBytes(h)[i..i + 4];
    }
    ReadHeaderAccepts(Open(b), hp);
  }
}
