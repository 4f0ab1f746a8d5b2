/** The two directions joined: a struct written to a buffer of the measured size and read back. */
module PbCodec {
  import opened Bytes
  import opened PbTypes
  import opened PbEncode
  import opened PbDecode
  import opened PbRoundTrip
  import opened PbStreams
  import PbEncoder
  import PbDecoder

  /** Sizing, writing and reading agree: the measured size is exactly enough, the whole buffer is consumed, and what
      comes back is the struct's normal form, unless some text is not terminated within its field (or some packed array
      or nested message is too long for a length the decoder reads). */
  method ThroughBuffer(fs: seq<Field>, m: Message) returns (sized: bool, size: nat, decoded: bool, m': Message)
    requires WellFormed(fs) && Typed(fs, m)
    ensures sized <==> EncodeMessage(fs, m).Some?
    ensures sized <==> Encodable(fs, m)
    ensures sized ==> size == |EncodeMessage(fs, m).value|
    ensures sized && PiecesShort(fs, m) ==> (decoded <==> TextsFit(fs, m))
    ensures sized && PiecesShort(fs, m) && decoded ==> m' == Normal(fs, m)
  {
    EncodesIffEncodable(fs, m);
    decoded, m' := false, m;
    sized, size := PbEncoder.EncodedSize(fs, m);
    if !sized {
      return;
    }
    var buf := new byte[size];
    var output := new OStream.FromBuffer(buf);
    var written := PbEncoder.Encode(output, fs, m);
    assert written && buf[..] == EncodeMessage(fs, m).value;
    var input := new IStream.FromBuffer(buf[..]);
    decoded, m' := PbDecoder.DecodeFresh(input, fs);
    if PiecesShort(fs, m) {
      RoundTrip(fs, m);
      if decoded {
        EncodingNotTerminated(fs, m);
        assert input.bytesLeft == 0;
      }
    }
  }

  /** An encoding is never cut short by a zero tag. */
  lemma EncodingNotTerminated(fs: seq<Field>, m: Message)
    requires WellFormed(fs) && Typed(fs, m) && TextsFit(fs, m)
    requires EncodeMessage(fs, m).Some? && PiecesShort(fs, m)
    ensures Run(fs, Start(Defaults(fs)), EncodeMessage(fs, m).value) == Ended(After(fs, m, |fs|), false)
  {
    assert fs[0..] == fs && m.slots[0..] == m.slots;
    FieldsRoundTrip(fs, m, 0);
    BeforeFields(fs, m);
  }
}
