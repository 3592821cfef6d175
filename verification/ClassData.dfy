/** The class-data list codec of dhcpv6.h (sections 22.15 and 22.16 of RFC 3315). */
module ClassData {
  import opened Bytes
  import opened Wrappers

  /** The two exceptions of the decoder. */
  datatype DecodeError = OptionNotFound | MalformedOption

  type Item = seq<byte>

  /** The length field: two bytes in network order; the size is cut to 16 bits. */
  function LengthField(size: nat): seq<byte>
  {
    [(size / 256) % 256, size % 256]
  }

  function FieldLength(high: byte, low: byte): nat
  {
    256 * high + low
  }

  function EncodeItem(item: Item): seq<byte>
  {
    LengthField(|item|) + item
  }

  function Encode(items: seq<Item>): seq<byte>
  {
    if items == [] then [] else Encode(items[..|items| - 1]) + EncodeItem(items[|items| - 1])
  }

  /** `buffer` with `patch` written over it from `index` on. */
  function Write(buffer: seq<byte>, index: nat, patch: seq<byte>): seq<byte>
    requires index + |patch| <= |buffer|
  {
    buffer[..index] + patch + buffer[index + |patch|..]
  }

  /** `class_option_data2option`: grow the buffer by what is encoded, and write it from `startIndex` on. */
  method ClassOptionDataToOption(items: seq<Item>, buffer: seq<byte>, startIndex: nat) returns (out: seq<byte>)
    requires startIndex <= |buffer|
    ensures out == Write(buffer + Fill(0, |Encode(items)|), startIndex, Encode(items))
  {
    var index := startIndex;
    out := buffer;
    assert items[..|items|] == items;
    for i := 0 to |items|
      invariant index == startIndex + |Encode(items[..i])|
      invariant out == Write(buffer + Fill(0, |Encode(items[..i])|), startIndex, Encode(items[..i]))
    {
      var item := items[i];
      assert items[..i + 1][..i] == items[..i];
      ghost var done, was := Encode(items[..i]), out;
      out := out + Fill(0, 2 + |item|);
      out := out[index := (|item| / 256) % 256][index + 1 := |item| % 256];
      index := index + 2;
      out := out[..index] + item + out[index + |item|..];
      index := index + |item|;
      WriteMore(buffer, startIndex, done, item, was, out);
    }
  }

  /** One round of the encoder's loop. */
  lemma WriteMore(buffer: seq<byte>, start: nat, done: seq<byte>, item: Item, was: seq<byte>, now: seq<byte>)
    requires start <= |buffer| && was == Write(buffer + Fill(0, |done|), start, done)
    requires var index := start + |done|;
      var grown := was + Fill(0, 2 + |item|);
      var sized := grown[index := (|item| / 256) % 256][index + 1 := |item| % 256];
      now == sized[..index + 2] + item + sized[index + 2 + |item|..]
    ensures now == Write(buffer + Fill(0, |done + EncodeItem(item)|), start, done + EncodeItem(item))
  {
    var wanted := Write(buffer + Fill(0, |done + EncodeItem(item)|), start, done + EncodeItem(item));
    assert |now| == |wanted|;
    forall k | 0 <= k < |now| ensures now[k] == wanted[k] {}
  }

  /** Started at the end of the buffer, the encoder keeps all earlier bytes and appends. */
  lemma EncodeAtEndAppends(items: seq<Item>, buffer: seq<byte>)
    ensures Write(buffer + Fill(0, |Encode(items)|), |buffer|, Encode(items)) == buffer + Encode(items)
  {
  }

  /** On the wire an item is its size in network order, then its bytes. */
  lemma ItemOnTheWire(item: Item)
    requires |item| < 0x1_0000
    ensures Encode([item]) == [|item| / 256, |item| % 256] + item
  {
    assert [item][..0] == [];
    assert Encode([]) == [] && Encode([item]) == EncodeItem(item);
  }

  /** Items follow one another. */
  lemma {:induction false} EncodeConcat(a: seq<Item>, b: seq<Item>)
    ensures Encode(a + b) == Encode(a) + Encode(b)
  {
    if b == [] {
      assert a + b == a;
    } else {
      var b' := b[..|b| - 1];
      assert (a + b)[..|a + b| - 1] == a + b';
      EncodeConcat(a, b');
    }
  }

  /** Byte `k` of the buffer after the encoder, wherever it started. */
  lemma EncodedAt(items: seq<Item>, buffer: seq<byte>, start: nat, k: nat)
    requires start <= |buffer| && k < |buffer| + |Encode(items)|
    ensures var out, size := Write(buffer + Fill(0, |Encode(items)|), start, Encode(items)), |Encode(items)|;
      && |out| == |buffer| + size
      && out[k] == if k < start then buffer[k] else if k < start + size then Encode(items)[k - start]
                   else if k < |buffer| then buffer[k] else 0
  {
  }

  // -------------------------------------------------------------------------
  // Decoding
  // -------------------------------------------------------------------------

  /** The decoder's loop from `index` on. */
  function DecodeFrom(data: seq<byte>, index: nat, items: seq<Item>): Result<seq<Item>, DecodeError>
    requires index <= |data|
    decreases |data| - index
  {
    if index + 2 < |data| then
      var size := FieldLength(data[index], data[index + 1]);
      if index + 2 + size > |data| then Err(OptionNotFound)
      else DecodeFrom(data, index + 2 + size, items + [data[index + 2..index + 2 + size]])
    else if index != |data| then Err(MalformedOption)
    else Ok(items)
  }

  function Decode(data: seq<byte>): Result<seq<Item>, DecodeError>
  {
    DecodeFrom(data, 0, [])
  }

  /** `option2class_option_data` */
  method OptionToClassOptionData(data: seq<byte>) returns (r: Result<seq<Item>, DecodeError>)
    ensures r == Decode(data)
  {
    var output: seq<Item> := [];
    var index := 0;
    while index + 2 < |data|
      invariant 0 <= index <= |data|
      invariant Decode(data) == DecodeFrom(data, index, output)
      decreases |data| - index
    {
      var size := FieldLength(data[index], data[index + 1]);
      index := index + 2;
      if index + size > |data| {
        return Err(OptionNotFound);
      }
      output := output + [data[index..index + size]];
      index := index + size;
    }
    if index != |data| {
      return Err(MalformedOption);
    }
    return Ok(output);
  }

  // -------------------------------------------------------------------------
  // Round trips
  // -------------------------------------------------------------------------

  /** Every size fits its field. */
  predicate Sized(items: seq<Item>)
  {
    forall i :: 0 <= i < |items| ==> |items[i]| < TWO_16
  }

  /** The lists that survive: sizes fit, and the last item, if any, is not empty. */
  predicate Encodable(items: seq<Item>)
  {
    Sized(items) && (items != [] ==> items[|items| - 1] != [])
  }

  lemma FieldLengthOf(size: nat)
    ensures FieldLength(LengthField(size)[0], LengthField(size)[1]) == size % TWO_16
  {
    var q := size / 256;
    CutTo16(size, q / 256, 256 * (q % 256) + size % 256);
  }

  lemma CutTo16(size: nat, high: nat, low: nat)
    requires size == TWO_16 * high + low && low < TWO_16
    ensures size % TWO_16 == low
  {
  }

  lemma LengthFieldOf(high: byte, low: byte)
    ensures LengthField(FieldLength(high, low)) == [high, low] && FieldLength(high, low) < TWO_16
  {
  }

  lemma {:induction false} EncodePrepend(item: Item, items: seq<Item>)
    ensures Encode([item] + items) == EncodeItem(item) + Encode(items)
  {
    var all := [item] + items;
    if items == [] {
      assert all[..0] == [] && all == [item];
    } else {
      assert all[..|all| - 1] == [item] + items[..|items| - 1];
      EncodePrepend(item, items[..|items| - 1]);
    }
  }

  /** Decoding resumes after any prefix: it reads what is left. */
  lemma {:induction false} DecodeRest(data: seq<byte>, index: nat, items: seq<Item>, rest: seq<Item>)
    requires index <= |data| && data[index..] == Encode(rest) && Sized(rest)
    ensures DecodeFrom(data, index, items) ==
      if rest != [] && rest[|rest| - 1] == [] then Err(MalformedOption) else Ok(items + rest)
    decreases |rest|
  {
    if rest == [] {
      assert items + rest == items;
    } else {
      var item, tail := rest[0], rest[1..];
      assert rest == [item] + tail;
      EncodePrepend(item, tail);
      EncodedHead(data, index, item, Encode(tail));
      if index + 2 < |data| {
        DecodeRest(data, index + 2 + |item|, items + [item], tail);
        assert items + [item] + tail == items + rest;
      } else {
        assert item == [] && Encode(tail) == [];
        EncodeEmpty(tail);
      }
    }
  }

  lemma EncodeEmpty(items: seq<Item>)
    requires Encode(items) == []
    ensures items == []
  {
  }

  /** What the decoder finds at the start of an encoded item. */
  lemma EncodedHead(data: seq<byte>, index: nat, item: Item, after: seq<byte>)
    requires index <= |data| && data[index..] == EncodeItem(item) + after && |item| < TWO_16
    ensures index + 2 + |item| <= |data| && FieldLength(data[index], data[index + 1]) == |item|
    ensures data[index + 2..index + 2 + |item|] == item && data[index + 2 + |item|..] == after
    ensures |data| == index + 2 + |item| + |after|
  {
    var rest := data[index..];
    assert rest[0] == data[index] && rest[1] == data[index + 1];
    FieldLengthOf(|item|);
    assert rest[2..2 + |item|] == item && rest[2 + |item|..] == after;
    assert data[index + 2..index + 2 + |item|] == rest[2..2 + |item|];
    assert data[index + 2 + |item|..] == rest[2 + |item|..];
  }

  /** A successful decoding re-encodes to the identical bytes, and its items are encodable. */
  lemma {:induction false} DecodedRest(data: seq<byte>, index: nat, items: seq<Item>) returns (rest: seq<Item>)
    requires index <= |data| && DecodeFrom(data, index, items).Ok?
    ensures DecodeFrom(data, index, items) == Ok(items + rest)
    ensures Encode(rest) == data[index..] && Encodable(rest)
    decreases |data| - index
  {
    if index + 2 < |data| {
      var size := FieldLength(data[index], data[index + 1]);
      var item, next := data[index + 2..index + 2 + size], index + 2 + size;
      var tail := DecodedRest(data, next, items + [item]);
      rest := [item] + tail;
      assert items + [item] + tail == items + rest;
      ItemReencodes(data, index, size, tail);
    } else {
      rest := [];
      assert items + rest == items;
    }
  }

  /** A decoded item in front of a decoded tail. */
  lemma ItemReencodes(data: seq<byte>, index: nat, size: nat, tail: seq<Item>)
    requires index + 2 + size <= |data| && index + 2 < |data| && size == FieldLength(data[index], data[index + 1])
    requires Encode(tail) == data[index + 2 + size..] && Encodable(tail)
    ensures var rest := [data[index + 2..index + 2 + size]] + tail;
      Encode(rest) == data[index..] && Encodable(rest)
  {
    var item := data[index + 2..index + 2 + size];
    EncodePrepend(item, tail);
    LengthFieldOf(data[index], data[index + 1]);
    assert data[index..] == EncodeItem(item) + data[index + 2 + size..];
    assert tail == [] ==> |data[index + 2 + size..]| == 0;
  }

  /** Decoding inverts encoding exactly on the encodable lists: the loop test is strict, and long sizes are cut. */
  lemma RoundTripIff(items: seq<Item>)
    ensures Decode(Encode(items)) == Ok(items) <==> Encodable(items)
  {
    if Encodable(items) {
      assert Encode(items)[0..] == Encode(items);
      DecodeRest(Encode(items), 0, [], items);
      assert [] + items == items;
    }
    if Decode(Encode(items)) == Ok(items) {
      var rest := DecodedRest(Encode(items), 0, []);
      assert [] + rest == rest == items;
    }
  }

  /** Encoding inverts decoding on every buffer that decodes. */
  lemma ReencodeIdentity(data: seq<byte>)
    requires Decode(data).Ok?
    ensures Encode(Decode(data).value) == data && Encodable(Decode(data).value)
  {
    var rest := DecodedRest(data, 0, []);
    assert [] + rest == rest && data[0..] == data;
  }

  lemma ReadItem(data: seq<byte>, index: nat, items: seq<Item>, item: Item, next: nat)
    requires index <= next < |data| && data[index..next] == EncodeItem(item) && |item| < TWO_16
    ensures next == index + 2 + |item|
    ensures DecodeFrom(data, index, items) == DecodeFrom(data, next, items + [item])
  {
    assert data[index..] == EncodeItem(item) + data[next..];
    EncodedHead(data, index, item, data[next..]);
  }

  /** Items that have a byte behind them are always read. */
  lemma {:induction false} DecodePast(data: seq<byte>, index: nat, items: seq<Item>, rest: seq<Item>, end: nat)
    requires index <= end < |data| && data[index..end] == Encode(rest) && Sized(rest)
    ensures DecodeFrom(data, index, items) == DecodeFrom(data, end, items + rest)
    decreases |rest|
  {
    if rest == [] {
      assert items + rest == items;
    } else {
      var item, more := rest[0], rest[1..];
      assert rest == [item] + more;
      EncodePrepend(item, more);
      var next := index + |EncodeItem(item)|;
      assert data[index..next] == data[index..end][..next - index] && data[next..end] == data[index..end][next - index..];
      ReadItem(data, index, items, item, next);
      DecodePast(data, next, items + [item], more, end);
      assert items + [item] + more == items + rest;
    }
  }

  /** `data` is items and a size that asks for more bytes than follow, of which there is at least one. */
  ghost predicate CutShort(data: seq<byte>, items: seq<Item>, high: byte, low: byte, part: seq<byte>)
  {
    Sized(items) && 0 < |part| < 0x100 * high as int + low as int && data == Encode(items) + ([high, low] + part)
  }

  /** `data` is items and one or two bytes more. */
  ghost predicate LeftOver(data: seq<byte>, items: seq<Item>, tail: seq<byte>)
  {
    Sized(items) && 1 <= |tail| <= 2 && data == Encode(items) + tail
  }

  lemma CutShortRaises(data: seq<byte>, items: seq<Item>, high: byte, low: byte, part: seq<byte>)
    requires CutShort(data, items, high, low, part)
    ensures Decode(data) == Err(OptionNotFound)
  {
    var index := |Encode(items)|;
    assert data[0..index] == Encode(items) && data[index] == high && data[index + 1] == low;
    DecodePast(data, 0, [], items, index);
  }

  lemma LeftOverRaises(data: seq<byte>, items: seq<Item>, tail: seq<byte>)
    requires LeftOver(data, items, tail)
    ensures Decode(data) == Err(MalformedOption)
  {
    assert data[0..|Encode(items)|] == Encode(items);
    DecodePast(data, 0, [], items, |Encode(items)|);
  }

  /** Where the decoder stops with an error. */
  lemma {:induction false} ErrorAt(data: seq<byte>, index: nat, items: seq<Item>) returns (rest: seq<Item>, tail: seq<byte>)
    requires index <= |data| && DecodeFrom(data, index, items).Err?
    ensures Sized(rest) && data[index..] == Encode(rest) + tail
    ensures if |tail| <= 2 then tail != [] && DecodeFrom(data, index, items) == Err(MalformedOption)
            else |tail| - 2 < FieldLength(tail[0], tail[1]) && DecodeFrom(data, index, items) == Err(OptionNotFound)
    decreases |data| - index
  {
    rest, tail := [], data[index..];
    if index + 2 < |data| && index + 2 + FieldLength(data[index], data[index + 1]) <= |data| {
      var size := FieldLength(data[index], data[index + 1]);
      var item, next := data[index + 2..index + 2 + size], index + 2 + size;
      var more;
      more, tail := ErrorAt(data, next, items + [item]);
      rest := [item] + more;
      EncodePrepend(item, more);
      LengthFieldOf(data[index], data[index + 1]);
      assert data[index..] == EncodeItem(item) + data[next..];
    }
  }

  /** Which buffers raise which exception; all others are decoded. */
  lemma DecodeRaisesIff(data: seq<byte>)
    ensures Decode(data) == Err(OptionNotFound) <==> exists items, high, low, part :: CutShort(data, items, high, low, part)
    ensures Decode(data) == Err(MalformedOption) <==> exists items, tail :: LeftOver(data, items, tail)
  {
    if items, high, low, part :| CutShort(data, items, high, low, part) {
      CutShortRaises(data, items, high, low, part);
    }
    if items, tail :| LeftOver(data, items, tail) {
      LeftOverRaises(data, items, tail);
    }
    if Decode(data).Err? {
      var items, tail := ErrorAt(data, 0, []);
      assert data[0..] == data;
      if |tail| <= 2 {
        assert LeftOver(data, items, tail);
      } else {
        assert tail == [tail[0], tail[1]] + tail[2..];
        assert CutShort(data, items, tail[0], tail[1], tail[2..]);
      }
    }
  }

  /** A list whose last item is empty, though its sizes fit, is always refused as malformed. */
  lemma EmptyLastItemIsMalformed(items: seq<Item>)
    requires Sized(items) && items != [] && items[|items| - 1] == []
    ensures Decode(Encode(items)) == Err(MalformedOption)
  {
    assert Encode(items)[0..] == Encode(items);
    DecodeRest(Encode(items), 0, [], items);
  }
}
