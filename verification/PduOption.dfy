/** Option bytes converted to vectors of integers and of pairs (pdu_option.h). */
module PduOption {
  import opened Wrappers
  import opened Endian
  import opened Modulo

  datatype OptionError = MalformedOption

  /** The byte order of the machine, and the one a PDU declares. */
  datatype Order = LittleEndian | BigEndian

  /** An unsigned integer type: its size, its bytes lowest first, and `change_endian`. */
  datatype Word<!T> = Word(size: nat, value: seq<Octet> -> T, bytes: T -> seq<Octet>, changeEndian: T -> T)

  const UINT8 := Word(1, (b: seq<Octet>) => if |b| == 1 then b[0] else 0, (x: bv8) => [x], (x: bv8) => x)
  const UINT16 := Word(2, Word16, Bytes16, ChangeEndian16)
  const UINT32 := Word(4, Word32, Bytes32, ChangeEndian32)
  const UINT64 := Word(8, Word64, Bytes64, ChangeEndian64)

  /** The bytes determine the value and the other way round, and changing endianness reverses them. */
  ghost predicate Lawful<T(!new)>(w: Word<T>)
  {
    && w.size > 0
    && (forall x: T :: |w.bytes(x)| == w.size && w.value(w.bytes(x)) == x)
    && (forall b: seq<Octet> :: |b| == w.size ==> w.bytes(w.value(b)) == b)
    && (forall x: T :: w.bytes(w.changeEndian(x)) == Reverse(w.bytes(x)))
  }

  lemma Uint8Lawful()
    ensures Lawful(UINT8)
  {
  }

  lemma Uint16Lawful()
    ensures Lawful(UINT16)
  {
    forall x: bv16
      ensures |Bytes16(x)| == 2 && Word16(Bytes16(x)) == x && Bytes16(ChangeEndian16(x)) == Reverse(Bytes16(x))
    {
      WordOfBytes16(x);
      Reversal16(x);
    }
    forall b: seq<Octet> | |b| == 2 ensures Bytes16(Word16(b)) == b {
      BytesOfWord16(b);
    }
  }

  lemma Uint32Lawful()
    ensures Lawful(UINT32)
  {
    forall x: bv32
      ensures |Bytes32(x)| == 4 && Word32(Bytes32(x)) == x && Bytes32(ChangeEndian32(x)) == Reverse(Bytes32(x))
    {
      WordOfBytes32(x);
      Reversal32(x);
    }
    forall b: seq<Octet> | |b| == 4 ensures Bytes32(Word32(b)) == b {
      BytesOfWord32(b);
    }
  }

  lemma Uint64Lawful()
    ensures Lawful(UINT64)
  {
    forall x: bv64
      ensures |Bytes64(x)| == 8 && Word64(Bytes64(x)) == x && Bytes64(ChangeEndian64(x)) == Reverse(Bytes64(x))
    {
      WordOfBytes64(x);
      Reversal64(x);
    }
    forall b: seq<Octet> | |b| == 8 ensures Bytes64(Word64(b)) == b {
      BytesOfWord64(b);
    }
  }

  /** The four unsigned integer types of the source. */
  lemma WordsLawful()
    ensures Lawful(UINT8) && Lawful(UINT16) && Lawful(UINT32) && Lawful(UINT64)
  {
    Uint8Lawful();
    Uint16Lawful();
    Uint32Lawful();
    Uint64Lawful();
  }

  /** `*(const T*)ptr`: what the machine reads from memory. */
  function Load<T>(w: Word<T>, host: Order, b: seq<Octet>): T
  {
    if host == LittleEndian then w.value(b) else w.value(Reverse(b))
  }

  /** `be_to_host` and `le_to_host`. */
  function ToHost<T>(w: Word<T>, host: Order, order: Order, x: T): T
  {
    if host == order then x else w.changeEndian(x)
  }

  /** One element as the converters read it. */
  function ReadElement<T>(w: Word<T>, host: Order, order: Order, b: seq<Octet>): T
  {
    ToHost(w, host, order, Load(w, host, b))
  }

  /** One element written in the byte order of the PDU. */
  function WriteElement<T>(w: Word<T>, order: Order, x: T): seq<Octet>
  {
    if order == LittleEndian then w.bytes(x) else Reverse(w.bytes(x))
  }

  /** On either machine, reading undoes writing and writing undoes reading. */
  lemma ElementRoundTrip<T(!new)>(w: Word<T>, host: Order, order: Order, x: T, b: seq<Octet>)
    requires Lawful(w) && |b| == w.size
    ensures |WriteElement(w, order, x)| == w.size && ReadElement(w, host, order, WriteElement(w, order, x)) == x
    ensures WriteElement(w, order, ReadElement(w, host, order, b)) == b
  {
    ReadIsOrdered(w, host, order, WriteElement(w, order, x));
    ReadIsOrdered(w, host, order, b);
    ReverseTwice(w.bytes(x));
    ReverseTwice(b);
  }

  /** What is read does not depend on the machine. */
  lemma ReadIsOrdered<T(!new)>(w: Word<T>, host: Order, order: Order, b: seq<Octet>)
    requires Lawful(w) && |b| == w.size
    ensures ReadElement(w, host, order, b) == w.value(if order == LittleEndian then b else Reverse(b))
  {
    if host != order {
      var memory := if host == LittleEndian then b else Reverse(b);
      var x := w.value(memory);
      assert w.bytes(w.changeEndian(x)) == Reverse(memory);
      assert w.value(w.bytes(w.changeEndian(x))) == w.changeEndian(x);
      ReverseTwice(b);
    }
  }

  /** A little-endian PDU has the lowest byte first, a big-endian one the highest, on either machine. */
  lemma ReadValue16(host: Order, order: Order, b: seq<Octet>)
    requires |b| == 2
    ensures ReadElement(UINT16, host, order, b) == Word16(if order == LittleEndian then b else Reverse(b))
  {
    Uint16Lawful();
    ReadIsOrdered(UINT16, host, order, b);
  }

  lemma ReadValue32(host: Order, order: Order, b: seq<Octet>)
    requires |b| == 4
    ensures ReadElement(UINT32, host, order, b) == Word32(if order == LittleEndian then b else Reverse(b))
  {
    Uint32Lawful();
    ReadIsOrdered(UINT32, host, order, b);
  }

  lemma ReadValue64(host: Order, order: Order, b: seq<Octet>)
    requires |b| == 8
    ensures ReadElement(UINT64, host, order, b) ==
      Word64(if order == LittleEndian then b else Reverse(b))
  {
    Uint64Lawful();
    ReadIsOrdered(UINT64, host, order, b);
  }

  // -------------------------------------------------------------------------
  // Vectors
  // -------------------------------------------------------------------------

  /** std::pair */
  datatype Pair<T, U> = Pair(first: T, second: U)

  /** A way to read and write values of a fixed size. */
  datatype Codec<!V> = Codec(size: nat, read: seq<Octet> -> V, write: V -> seq<Octet>)

  ghost predicate Inverse<V(!new)>(c: Codec<V>)
  {
    && c.size > 0
    && (forall v: V :: |c.write(v)| == c.size && c.read(c.write(v)) == v)
    && (forall b: seq<Octet> :: |b| == c.size ==> c.write(c.read(b)) == b)
  }

  function ElementCodec<T>(w: Word<T>, host: Order, order: Order): Codec<T>
  {
    Codec(w.size, b => ReadElement(w, host, order, b), x => WriteElement(w, order, x))
  }

  function Head(b: seq<Octet>, n: nat): seq<Octet> { if n <= |b| then b[..n] else [] }

  function Rest(b: seq<Octet>, n: nat): seq<Octet> { if n <= |b| then b[n..] else [] }

  function ReadPair<T, U>(t: Word<T>, u: Word<U>, host: Order, order: Order, b: seq<Octet>): Pair<T, U>
  {
    Pair(ReadElement(t, host, order, Head(b, t.size)), ReadElement(u, host, order, Rest(b, t.size)))
  }

  function WritePair<T, U>(t: Word<T>, u: Word<U>, order: Order, p: Pair<T, U>): seq<Octet>
  {
    WriteElement(t, order, p.first) + WriteElement(u, order, p.second)
  }

  function PairCodec<T, U>(t: Word<T>, u: Word<U>, host: Order, order: Order): Codec<Pair<T, U>>
  {
    Codec(t.size + u.size, b => ReadPair(t, u, host, order, b), p => WritePair(t, u, order, p))
  }

  /** The first element of a pair comes first. */
  lemma PairLayout<T, U>(t: Word<T>, u: Word<U>, host: Order, order: Order, x: seq<Octet>, y: seq<Octet>)
    requires |x| == t.size && |y| == u.size
    ensures PairCodec(t, u, host, order).read(x + y) == Pair(ReadElement(t, host, order, x), ReadElement(u, host, order, y))
  {
    assert Head(x + y, t.size) == x && Rest(x + y, t.size) == y;
  }

  lemma ElementCodecInverse<T(!new)>(w: Word<T>, host: Order, order: Order)
    requires Lawful(w)
    ensures Inverse(ElementCodec(w, host, order))
  {
    var c := ElementCodec(w, host, order);
    forall x: T ensures |c.write(x)| == c.size && c.read(c.write(x)) == x {
      ElementRoundTrip(w, host, order, x, w.bytes(x));
    }
    forall b: seq<Octet> | |b| == c.size ensures c.write(c.read(b)) == b {
      ElementRoundTrip(w, host, order, w.value(b), b);
    }
  }

  lemma PairWritten<T(!new), U(!new)>(t: Word<T>, u: Word<U>, host: Order, order: Order, p: Pair<T, U>)
    requires Lawful(t) && Lawful(u)
    ensures |WritePair(t, u, order, p)| == t.size + u.size
    ensures ReadPair(t, u, host, order, WritePair(t, u, order, p)) == p
  {
    var first, second := WriteElement(t, order, p.first), WriteElement(u, order, p.second);
    ElementRoundTrip(t, host, order, p.first, t.bytes(p.first));
    ElementRoundTrip(u, host, order, p.second, u.bytes(p.second));
    assert Head(first + second, t.size) == first && Rest(first + second, t.size) == second;
  }

  lemma PairRead<T(!new), U(!new)>(t: Word<T>, u: Word<U>, host: Order, order: Order, b: seq<Octet>)
    requires Lawful(t) && Lawful(u) && |b| == t.size + u.size
    ensures WritePair(t, u, order, ReadPair(t, u, host, order, b)) == b
  {
    var x, y := Head(b, t.size), Rest(b, t.size);
    ElementRoundTrip(t, host, order, t.value(x), x);
    ElementRoundTrip(u, host, order, u.value(y), y);
    assert b == x + y;
  }

  lemma PairCodecInverse<T(!new), U(!new)>(t: Word<T>, u: Word<U>, host: Order, order: Order)
    requires Lawful(t) && Lawful(u)
    ensures Inverse(PairCodec(t, u, host, order))
  {
    var c := PairCodec(t, u, host, order);
    forall p: Pair<T, U> ensures |c.write(p)| == c.size && c.read(c.write(p)) == p {
      PairWritten(t, u, host, order, p);
    }
    forall b: seq<Octet> | |b| == c.size ensures c.write(c.read(b)) == b {
      PairRead(t, u, host, order, b);
    }
  }

  /** The values of consecutive chunks. */
  function ReadAll<V>(c: Codec<V>, data: seq<Octet>): seq<V>
  {
    if c.size == 0 || |data| < c.size then [] else [c.read(data[..c.size])] + ReadAll(c, data[c.size..])
  }

  /** The elements written one after another. */
  function WriteAll<V>(c: Codec<V>, vs: seq<V>): seq<Octet>
  {
    if vs == [] then [] else c.write(vs[0]) + WriteAll(c, vs[1..])
  }

  /** Value `k` is read from the `k`-th chunk. */
  lemma {:induction false} ReadAllAt<V>(c: Codec<V>, data: seq<Octet>, k: nat, at: nat)
    requires c.size > 0 && at == k * c.size && at + c.size <= |data|
    ensures k < |ReadAll(c, data)| && ReadAll(c, data)[k] == c.read(data[at..at + c.size])
    decreases k
  {
    if k > 0 {
      assert at - c.size == (k - 1) * c.size;
      MultipleOrder(0, k, c.size);
      ReadAllAt(c, data[c.size..], k - 1, at - c.size);
      assert data[c.size..][at - c.size..at] == data[at..at + c.size];
    }
  }

  /** What both vector converters promise. */
  function Converted<V>(c: Codec<V>, data: seq<Octet>): Result<seq<V>, OptionError>
    requires c.size > 0
  {
    if |data| % c.size != 0 then Err(MalformedOption) else Ok(ReadAll(c, data))
  }

  /** `converter<std::vector<T>>` for the unsigned integers. */
  method ConvertVector<T>(w: Word<T>, host: Order, order: Order, data: seq<Octet>) returns (r: Result<seq<T>, OptionError>)
    requires w.size > 0
    ensures r == Converted(ElementCodec(w, host, order), data)
  {
    r := ConvertAll(ElementCodec(w, host, order), data);
  }

  /** `converter<std::vector<std::pair<T, U>>>` */
  method ConvertPairs<T, U>(t: Word<T>, u: Word<U>, host: Order, order: Order, data: seq<Octet>)
    returns (r: Result<seq<Pair<T, U>>, OptionError>)
    requires t.size > 0 && u.size > 0
    ensures r == Converted(PairCodec(t, u, host, order), data)
  {
    r := ConvertAll(PairCodec(t, u, host, order), data);
  }

  /** The loop of both: a pointer that moves by one value until the end of the data. */
  method ConvertAll<V>(c: Codec<V>, data: seq<Octet>) returns (r: Result<seq<V>, OptionError>)
    requires c.size > 0
    ensures r == Converted(c, data)
  {
    WholeIsMultiple(|data|, c.size);
    if |data| % c.size != 0 {
      return Err(MalformedOption);
    }
    var output := [];
    var ptr := 0;
    ProgressStart(c, data);
    while ptr < |data|
      invariant 0 <= ptr <= |data| && Progress(c, data, ptr, output)
    {
      var v := c.read(data[ptr..ptr + c.size]);
      ProgressStep(c, data, ptr, output, v, ptr + c.size);
      output := output + [v];
      ptr := ptr + c.size;
    }
    ProgressEnd(c, data, output);
    return Ok(output);
  }

  /** `left` bytes are a whole number of elements. */
  predicate Whole(left: nat, size: nat)
    requires size > 0
  {
    left == 0 || (left >= size && Whole(left - size, size))
  }

  lemma {:induction false} WholeIsMultiple(left: nat, size: nat)
    requires size > 0
    ensures Whole(left, size) <==> left % size == 0
    decreases left
  {
    if left == 0 {
      ModuloIs(0, size, 0, 0);
    } else if left < size {
      ModuloIs(left, size, 0, left);
    } else {
      ModuloStep(left, size);
      WholeIsMultiple(left - size, size);
    }
  }

  /** What a converter has done at `ptr`. */
  ghost predicate Progress<V>(c: Codec<V>, data: seq<Octet>, ptr: nat, output: seq<V>)
    requires c.size > 0 && ptr <= |data|
  {
    Whole(|data| - ptr, c.size) && ReadAll(c, data) == output + ReadAll(c, data[ptr..])
  }

  lemma ProgressStart<V>(c: Codec<V>, data: seq<Octet>)
    requires c.size > 0 && Whole(|data|, c.size)
    ensures Progress(c, data, 0, [])
  {
    assert data[0..] == data;
  }

  lemma ProgressEnd<V>(c: Codec<V>, data: seq<Octet>, output: seq<V>)
    requires c.size > 0 && Progress(c, data, |data|, output)
    ensures ReadAll(c, data) == output
  {
    assert data[|data|..] == [];
    assert output + [] == output;
  }

  /** One round of a converter's loop. */
  lemma ProgressStep<V>(c: Codec<V>, data: seq<Octet>, ptr: nat, output: seq<V>, v: V, next: nat)
    requires c.size > 0 && ptr < |data| && Progress(c, data, ptr, output)
    requires next == ptr + c.size <= |data| && v == c.read(data[ptr..next])
    ensures Progress(c, data, next, output + [v])
  {
    var rest := data[ptr..];
    assert rest[..c.size] == data[ptr..next] && rest[c.size..] == data[next..];
    assert ReadAll(c, rest) == [v] + ReadAll(c, data[next..]);
    assert output + ([v] + ReadAll(c, data[next..])) == output + [v] + ReadAll(c, data[next..]);
  }

  lemma {:induction false} WriteAllWhole<V(!new)>(c: Codec<V>, vs: seq<V>)
    requires Inverse(c)
    ensures |WriteAll(c, vs)| % c.size == 0
  {
    if vs == [] {
      ModuloIs(0, c.size, 0, 0);
    } else {
      WriteAllWhole(c, vs[1..]);
      ModuloStep(|WriteAll(c, vs)|, c.size);
    }
  }

  /** Converting inverts writing the elements one after another. */
  lemma {:induction false} ConvertWritten<V(!new)>(c: Codec<V>, vs: seq<V>)
    requires Inverse(c)
    ensures Converted(c, WriteAll(c, vs)) == Ok(vs)
  {
    WriteAllWhole(c, vs);
    if vs != [] {
      ConvertWritten(c, vs[1..]);
      WriteAllWhole(c, vs[1..]);
      var data, rest := WriteAll(c, vs), WriteAll(c, vs[1..]);
      assert data[..c.size] == c.write(vs[0]) && data[c.size..] == rest;
      assert vs == [vs[0]] + vs[1..];
    }
  }

  /** Writing inverts every successful conversion. */
  lemma {:induction false} WriteConverted<V(!new)>(c: Codec<V>, data: seq<Octet>)
    requires Inverse(c) && |data| % c.size == 0
    ensures WriteAll(c, ReadAll(c, data)) == data
    decreases |data|
  {
    if data != [] {
      WholeIsMultiple(|data|, c.size);
      WholeIsMultiple(|data| - c.size, c.size);
      WriteConverted(c, data[c.size..]);
      var vs := ReadAll(c, data);
      assert vs[0] == c.read(data[..c.size]) && vs[1..] == ReadAll(c, data[c.size..]);
    }
  }

  /** So a conversion succeeds exactly on what writing produces. */
  lemma ConvertsIff<V(!new)>(c: Codec<V>, data: seq<Octet>)
    requires Inverse(c)
    ensures Converted(c, data).Ok? <==> exists vs :: WriteAll(c, vs) == data
  {
    if Converted(c, data).Ok? {
      WriteConverted(c, data);
    }
    forall vs | WriteAll(c, vs) == data ensures Converted(c, data).Ok? {
      WriteAllWhole(c, vs);
    }
  }
}
