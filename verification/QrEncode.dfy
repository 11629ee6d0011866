/** The parts of QRcode_encodeMask of qrencode.c before masking: the raw code of an input, the fill of a
    frame, and what a receiver makes of the bits of its modules. */
module QrEncode {
  import opened QrSpec
  import opened QrBits
  import opened QrSegments
  import opened QrInput
  import opened QrFrame
  import opened QrRaw
  import GF256

  function Values(codes: seq<bv8>): (r: seq<Byte>)
    ensures |r| == |codes|
  {
    seq(|codes|, i requires 0 <= i < |codes| => GF256.Value(codes[i]))
  }

  function Elements(bytes: seq<nat>): (r: seq<bv8>)
    requires forall i :: 0 <= i < |bytes| ==> bytes[i] < 256
    ensures |r| == |bytes|
  {
    seq(|bytes|, i requires 0 <= i < |bytes| => GF256.Byte(bytes[i]))
  }

  lemma ValuesOfElements(bytes: seq<nat>)
    requires forall i :: 0 <= i < |bytes| ==> bytes[i] < 256
    ensures Values(Elements(bytes)) == bytes
  {
    hide GF256.Value, GF256.Byte;
  }

  lemma ElementsOfValues(codes: seq<bv8>)
    ensures Elements(Values(codes)) == codes
  {
    hide GF256.Value, GF256.Byte;
    forall i | 0 <= i < |codes| ensures Elements(Values(codes))[i] == codes[i] {
      GF256.ValueInjective(Elements(Values(codes))[i], codes[i]);
    }
  }

  lemma {:induction false} PackUnpacked(bytes: seq<Byte>)
    ensures Pack(ByteBits(bytes)) == bytes
  {
    hide ToBits, FromBits;
    if bytes != [] {
      var head, tail := ToBits(8, bytes[0]), ByteBits(bytes[1..]);
      assert (head + tail)[..8] == head && (head + tail)[8..] == tail;
      Pow2Values();
      FromToBits(8, bytes[0]);
      PackUnpacked(bytes[1..]);
      assert bytes == [bytes[0]] + bytes[1..];
    }
  }

  /** The fill loop: the codes as they come from the raw code and then the remainder bits, which
      are light. It succeeds if and only if there are cells enough. */
  method FillFrame(width: nat, frame: array2<bv8>, ghost reserved: set<Cell>, raw: QRRawCode, ghost dl: nat, ghost el: nat, remainder: nat)
    returns (ok: bool)
    requires IsWidth(width) && frame.Length0 == width && frame.Length1 == width && FrameShape(width, reserved)
    requires forall x, y :: 0 <= x < width && 0 <= y < width ==> (Reserved(frame[y, x]) <==> Cell(x, y) in reserved)
    requires raw.Valid(dl, el) && raw.count == 0
    modifies frame, raw
    ensures var order, bits := ZigzagOrder(width, reserved), ByteBits(Values(Interleaved(raw.blocks, dl, el))) + ToBits(remainder, 0);
      && (ok <==> |bits| <= |order|)
      && (forall k :: 0 <= k < |order| ==> 0 <= order[k].x < width && 0 <= order[k].y < width)
      && (ok ==> Written(old(Rows(frame)), frame, order, bits))
  {
    hide Filling, Reserved, Written, ZigzagOrder, FrameShape, ByteBits, ToBits, Rows, FrameFiller.ToCome, Interleaved, Shaped, DataTotal;
    ghost var order, codes := ZigzagOrder(width, reserved), Interleaved(raw.blocks, dl, el);
    ghost var values := Values(codes);
    ghost var before := Rows(frame);
    ghost var all := ByteBits(values) + ToBits(remainder, 0);
    var filler := new FrameFiller(width, frame, reserved);
    FillingStarts(filler, before);
    ghost var bits: seq<bool> := [];
    FillingWithin(filler, before, order, bits);
    InterleavedLength(raw.blocks, raw.b1, dl, el);
    assert values[0..] == values;
    for i := 0 to raw.dataLength + raw.eccLength
      invariant |bits| == 8 * i && bits + ByteBits(values[i..]) == ByteBits(values)
      invariant fresh(filler) && filler.width == width && filler.frame == frame && filler.reserved == reserved
      invariant raw.count == i && Filling(filler, before, order, bits)
    {
      ByteBitsStep(values, i);
      var code := raw.GetCode(dl, el);
      var found := PutCode(filler, before, order, bits, GF256.Value(code));
      if !found {
        return false;
      }
      bits := bits + ToBits(8, GF256.Value(code));
    }
    assert bits == ByteBits(values);
    ZeroBits(remainder);
    for i := 0 to remainder
      invariant |bits| == 8 * |values| + i && bits == all[..8 * |values| + i]
      invariant fresh(filler) && filler.width == width && filler.frame == frame && filler.reserved == reserved
      invariant Filling(filler, before, order, bits)
    {
      var found := PutNext(filler, before, order, bits, false);
      if !found {
        return false;
      }
      bits := bits + [false];
    }
    assert bits == all;
    FillingWithin(filler, before, order, bits);
    return true;
  }

  /** Bytes of a symbol, data and parity. */
  function Capacity(version: nat, level: Level): int {
    DataLength(version, level) + EccLength(version, level)
  }

  /** What a receiver makes of the module bits, taken in zig-zag order: bytes, blocks, the data of
      the blocks, and the segments in it. */
  function Receive(bits: seq<bool>, version: nat, level: Level): Segments
    requires 1 <= version <= VERSION_MAX && |bits| == 8 * Capacity(version, level)
  {
    BlocksFillSymbol(version, level);
    UnpackPacked(bits);
    var spec := GetEccSpec(version, level);
    SpecTotals(spec);
    ReadStream(ByteBits(Values(Joined(Deinterleaved(Elements(Pack(bits)), spec.count1 + spec.count2, spec.count1, spec.data, spec.ecc)))), version)
  }

  lemma SpecTotals(spec: EccSpec)
    ensures spec.count1 * spec.data + spec.count2 * (spec.data + 1)
         == spec.data * (spec.count1 + spec.count2) + (spec.count1 + spec.count2 - spec.count1)
    ensures spec.ecc * (spec.count1 + spec.count2) == (spec.count1 + spec.count2) * spec.ecc
  {}

  /** The bits of the first n cells of an order. */
  ghost function ModuleBits(frame: array2<bv8>, order: seq<Cell>, n: nat): (r: seq<bool>)
    requires n <= |order| && forall k :: 0 <= k < |order| ==> 0 <= order[k].x < frame.Length1 && 0 <= order[k].y < frame.Length0
    reads frame
  {
    seq(n, k requires 0 <= k < n reads frame => frame[order[k].y, order[k].x] & 1 == 1)
  }

  /** QRraw_new. */
  method NewRaw(input: QRinput) returns (ok: bool, raw: QRRawCode)
    requires input.Valid()
    modifies input`version, input`streams
    ensures input.Valid() && fresh(raw) && raw.count == 0 && old(input.version) <= input.version
    ensures Settled(input.version, ok) == Converted(input.entries, input.level, old(input.version))
    ensures ok ==> 1 <= input.version && var spec := GetEccSpec(input.version, input.level);
      && raw.Valid(spec.data, spec.ecc) && raw.b1 == spec.count1 && |raw.blocks| == spec.count1 + spec.count2
      && |Joined(raw.blocks)| == DataLength(input.version, input.level)
      && (forall i :: 0 <= i < |raw.blocks| ==> Coded(raw.blocks[i], spec.ecc))
      && ReadStream(ByteBits(Values(Joined(raw.blocks))), input.version) == Segments(ReadEntries(AllChunks(input.entries, input.version)))
  {
    hide DataLength, EccLength, GetEccSpec, ReadStream, ByteBits, Converted, AllChunks, ReadEntries, Joined, Coded, Shaped, DataTotal, GoodEntry, StreamBits;
    var bytes;
    ok, bytes := input.GetByteStream();
    if !ok {
      raw := new QRRawCode(0, [], 0, 0);
      return;
    }
    var spec := GetEccSpec(input.version, input.level);
    BlocksFillSymbol(input.version, input.level);
    SpecTotals(spec);
    ValuesOfElements(bytes[..]);
    var blocks := InitRSblock(spec, Elements(bytes[..]));
    RawLengths(blocks, spec);
    raw := new QRRawCode(spec.count1, blocks,
      spec.count1 * spec.data + spec.count2 * (spec.data + 1), (spec.count1 + spec.count2) * spec.ecc);
  }

  lemma RawLengths(blocks: seq<RSblock>, spec: EccSpec)
    requires |blocks| == spec.count1 + spec.count2
    ensures DataTotal(blocks, spec.count1, spec.data) == spec.count1 * spec.data + spec.count2 * (spec.data + 1)
    ensures spec.ecc * |blocks| == (spec.count1 + spec.count2) * spec.ecc
  {
    SpecTotals(spec);
  }

  lemma OrderOnFrame(width: nat, reserved: set<Cell>)
    requires IsWidth(width)
    ensures var order := ZigzagOrder(width, reserved); forall k :: 0 <= k < |order| ==> 0 <= order[k].x < width && 0 <= order[k].y < width
  {
    hide ZigzagOrder;
    ZigzagOrderIsExact(width, reserved);
  }

  lemma CodesFill(raw: QRRawCode, spec: EccSpec, version: nat, level: Level)
    requires 1 <= version <= VERSION_MAX && spec == GetEccSpec(version, level)
    requires raw.Valid(spec.data, spec.ecc) && raw.b1 == spec.count1 && |raw.blocks| == spec.count1 + spec.count2
    ensures |Interleaved(raw.blocks, spec.data, spec.ecc)| == Capacity(version, level)
  {
    hide Interleaved, DataLength, EccLength, GetEccSpec;
    BlocksFillSymbol(version, level);
    InterleavedLength(raw.blocks, raw.b1, spec.data, spec.ecc);
    RawLengths(raw.blocks, spec);
  }

  lemma ReadModules(before: seq<seq<bv8>>, frame: array2<bv8>, order: seq<Cell>, values: seq<Byte>, remainder: nat)
    requires 8 * |values| + remainder <= |order|
    requires forall k :: 0 <= k < |order| ==> 0 <= order[k].x < frame.Length1 && 0 <= order[k].y < frame.Length0
    requires |before| == frame.Length0 && forall y :: 0 <= y < |before| ==> |before[y]| == frame.Length1
    requires Written(before, frame, order, ByteBits(values) + ToBits(remainder, 0))
    ensures ModuleBits(frame, order, 8 * |values|) == ByteBits(values)
  {
    hide ByteBits, ToBits, Module;
    var bits := ByteBits(values) + ToBits(remainder, 0);
    forall k | 0 <= k < 8 * |values| ensures (frame[order[k].y, order[k].x] & 1 == 1) == ByteBits(values)[k] {
      ModuleFree(bits[k]);
    }
  }

  lemma ReceiveBlocks(blocks: seq<RSblock>, version: nat, level: Level)
    requires 1 <= version <= VERSION_MAX
    requires var spec := GetEccSpec(version, level);
      |blocks| == spec.count1 + spec.count2 && Shaped(blocks, spec.count1, spec.data, spec.ecc)
    ensures var spec := GetEccSpec(version, level);
      var bits := ByteBits(Values(Interleaved(blocks, spec.data, spec.ecc)));
      |bits| == 8 * Capacity(version, level) && Receive(bits, version, level) == ReadStream(ByteBits(Values(Joined(blocks))), version)
  {
    hide ByteBits, Joined, Interleaved, ReadStream, Pack, DataLength, EccLength, GetEccSpec, Shaped, DataTotal, Deinterleaved, Values, Elements;
    var spec := GetEccSpec(version, level);
    var codes := Interleaved(blocks, spec.data, spec.ecc);
    BlocksFillSymbol(version, level);
    InterleavedLength(blocks, spec.count1, spec.data, spec.ecc);
    RawLengths(blocks, spec);
    DeinterleaveUndoes(blocks, spec.count1, spec.data, spec.ecc);
    PackUnpacked(Values(codes));
    ElementsOfValues(codes);
  }
}
