/** Token content as TEP-64 ("Data serialization") stores it: a chain of cells
    (snake) or a dictionary of cells (chunks), decoded through a buffer of 8192
    bytes (`parse_snake_data` and `parse_chunks_data` in ton-http-api/utils.cpp).
    A cell is its data bits and, in a chain, the next cell. */
module Content {
  import opened Results

  const BUFFER_BYTES: nat := 1024 * 8
  const BUFFER_BITS: nat := BUFFER_BYTES * 8

  type Byte = b: int | 0 <= b < 256

  type Bits = seq<bool>

  datatype Cell = Cell(data: Bits, next: Option<Cell>)

  const NOT_ALIGNED := Error(0, "Not byte aligned")
  const CHUNKS_EXCEPTION := "Exception while parsing chunks data: "

  // ----- Bits and bytes -----

  function Power2(k: nat): nat { if k == 0 then 1 else 2 * Power2(k - 1) }

  /** `k` bits of a number, most significant first. */
  function NumberToBits(n: nat, k: nat): Bits {
    if k == 0 then [] else NumberToBits(n / 2, k - 1) + [n % 2 == 1]
  }

  function BitsToNumber(s: Bits): nat {
    if s == [] then 0 else 2 * BitsToNumber(s[..|s| - 1]) + if s[|s| - 1] then 1 else 0
  }

  lemma {:induction false} NumberRoundTrip(n: nat, k: nat)
    requires n < Power2(k)
    ensures |NumberToBits(n, k)| == k && BitsToNumber(NumberToBits(n, k)) == n
  {
    if k > 0 {
      NumberRoundTrip(n / 2, k - 1);
      var s := NumberToBits(n, k);
      assert s[..|s| - 1] == NumberToBits(n / 2, k - 1);
    }
  }

  lemma {:induction false} BitsToNumberRoundTrip(s: Bits)
    ensures BitsToNumber(s) < Power2(|s|)
    ensures NumberToBits(BitsToNumber(s), |s|) == s
  {
    if s != [] {
      BitsToNumberRoundTrip(s[..|s| - 1]);
    }
  }

  lemma {:induction false} EightBits()
    ensures Power2(8) == 256
  {
    assert Power2(4) == 16;
  }

  function BitsOfByte(b: Byte): (s: Bits)
    ensures |s| == 8 && BitsToNumber(s) == b
  {
    EightBits();
    NumberRoundTrip(b, 8);
    NumberToBits(b, 8)
  }

  function ByteOfBits(s: Bits): (b: Byte)
    requires |s| == 8
    ensures BitsOfByte(b) == s
  {
    EightBits();
    BitsToNumberRoundTrip(s);
    BitsToNumber(s)
  }

  function BitsOf(bytes: seq<Byte>): Bits {
    if bytes == [] then [] else BitsOfByte(bytes[0]) + BitsOf(bytes[1..])
  }

  function BytesOf(bits: Bits): seq<Byte>
    requires |bits| % 8 == 0
  {
    if bits == [] then [] else [ByteOfBits(bits[..8])] + BytesOf(bits[8..])
  }

  lemma {:induction false} BytesRoundTrip(bytes: seq<Byte>)
    ensures |BitsOf(bytes)| == 8 * |bytes|
    ensures BytesOf(BitsOf(bytes)) == bytes
  {
    if bytes != [] {
      BytesRoundTrip(bytes[1..]);
      var head, tail := BitsOfByte(bytes[0]), BitsOf(bytes[1..]);
      assert (head + tail)[..8] == head && (head + tail)[8..] == tail;
    }
  }

  /** Decoding loses nothing: aligned bits are the bits of their bytes. */
  lemma {:induction false} AlignedBitsRoundTrip(bits: Bits)
    requires |bits| % 8 == 0
    ensures BitsOf(BytesOf(bits)) == bits
  {
    if bits != [] {
      AlignedBitsRoundTrip(bits[8..]);
      assert bits == bits[..8] + bits[8..];
      var head, tail := ByteOfBits(bits[..8]), BytesOf(bits[8..]);
      assert ([head] + tail)[0] == head && ([head] + tail)[1..] == tail;
    }
  }

  function Bit(b: bool): nat { if b then 1 else 0 }

  lemma {:induction false} OneMoreBit(s: Bits, k: nat)
    requires k < |s|
    ensures BitsToNumber(s[..k + 1]) == 2 * BitsToNumber(s[..k]) + Bit(s[k])
  {
    assert s[..k + 1][..k] == s[..k];
  }

  lemma {:induction false} EightWeights(s: Bits)
    requires |s| == 8
    ensures BitsToNumber(s) == 128 * Bit(s[0]) + 64 * Bit(s[1]) + 32 * Bit(s[2]) + 16 * Bit(s[3])
                               + 8 * Bit(s[4]) + 4 * Bit(s[5]) + 2 * Bit(s[6]) + Bit(s[7])
  {
    assert s[..8] == s && BitsToNumber(s[..0]) == 0;
    OneMoreBit(s, 0);
    OneMoreBit(s, 1);
    OneMoreBit(s, 2);
    OneMoreBit(s, 3);
    OneMoreBit(s, 4);
    OneMoreBit(s, 5);
    OneMoreBit(s, 6);
    OneMoreBit(s, 7);
  }

  lemma {:induction false} ByteAt(bytes: seq<Byte>, i: nat)
    requires i < |bytes|
    ensures |BitsOf(bytes)| == 8 * |bytes| && BitsOf(bytes)[8 * i..8 * i + 8] == BitsOfByte(bytes[i])
  {
    BytesRoundTrip(bytes);
    BytesRoundTrip(bytes[1..]);
    var head, tail := BitsOfByte(bytes[0]), BitsOf(bytes[1..]);
    if i == 0 {
      assert (head + tail)[..8] == head;
    } else {
      ByteAt(bytes[1..], i - 1);
      assert (head + tail)[8 * i..8 * i + 8] == tail[8 * (i - 1)..8 * (i - 1) + 8];
    }
  }

  /** The order of bits: byte `i` is the sum of the eight bits from `8 * i` on,
      of which the first counts 128 and the last 1. */
  lemma {:induction false} BytesAreWeightedBits(bytes: seq<Byte>, i: nat)
    requires i < |bytes|
    ensures |BitsOf(bytes)| == 8 * |bytes|
    ensures var s := BitsOf(bytes)[8 * i..8 * i + 8];
            bytes[i] == 128 * Bit(s[0]) + 64 * Bit(s[1]) + 32 * Bit(s[2]) + 16 * Bit(s[3])
                        + 8 * Bit(s[4]) + 4 * Bit(s[5]) + 2 * Bit(s[6]) + Bit(s[7])
  {
    ByteAt(bytes, i);
    EightWeights(BitsOfByte(bytes[i]));
  }

  // ----- Pieces -----

  function Pieces(c: Cell): seq<Bits> {
    [c.data] + if c.next.None? then [] else Pieces(c.next.value)
  }

  function Flatten(pieces: seq<Bits>): Bits {
    if pieces == [] then [] else pieces[0] + Flatten(pieces[1..])
  }

  /** The whole pieces that fit, from the front, into `room` bits. */
  function Fitting(pieces: seq<Bits>, room: nat): seq<Bits> {
    if pieces == [] || |pieces[0]| > room then [] else [pieces[0]] + Fitting(pieces[1..], room - |pieces[0]|)
  }

  function AlignedBytes(bits: Bits): Result<seq<Byte>> {
    if |bits| % 8 != 0 then Err(NOT_ALIGNED) else Ok(BytesOf(bits))
  }

  /** What decoding gives: the bytes of the pieces that fit, or an error. */
  function Decode(pieces: seq<Bits>): Result<seq<Byte>> {
    AlignedBytes(Flatten(Fitting(pieces, BUFFER_BITS)))
  }

  lemma {:induction false} FlattenAppends(a: seq<Bits>, b: seq<Bits>)
    ensures Flatten(a + b) == Flatten(a) + Flatten(b)
  {
    if a == [] {
      assert a + b == b;
    } else {
      assert (a + b)[1..] == a[1..] + b;
      FlattenAppends(a[1..], b);
    }
  }

  /** `Fitting` is the longest prefix of whole pieces within the room. */
  lemma {:induction false} FittingIsLongestPrefix(pieces: seq<Bits>, room: nat)
    ensures Fitting(pieces, room) <= pieces && |Flatten(Fitting(pieces, room))| <= room
    ensures forall n | 0 <= n <= |pieces| && |Flatten(pieces[..n])| <= room :: n <= |Fitting(pieces, room)|
  {
    if pieces != [] {
      if |pieces[0]| <= room {
        FittingIsLongestPrefix(pieces[1..], room - |pieces[0]|);
      }
      forall n | 0 <= n <= |pieces| && |Flatten(pieces[..n])| <= room
        ensures n <= |Fitting(pieces, room)|
      {
        if n > 0 {
          assert pieces[..n][1..] == pieces[1..][..n - 1];
        }
      }
    }
  }

  // ----- The main laws -----

  /** However a payload of at most 8192 bytes is cut into pieces, also inside a
      byte, decoding returns it. */
  lemma {:induction false} PayloadSurvivesAnyCut(payload: seq<Byte>, pieces: seq<Bits>)
    requires |payload| <= 8192 && Flatten(pieces) == BitsOf(payload)
    ensures Decode(pieces) == Ok(payload)
  {
    BytesRoundTrip(payload);
    FittingIsLongestPrefix(pieces, BUFFER_BITS);
    assert pieces[..|pieces|] == pieces;
    assert Fitting(pieces, BUFFER_BITS) == pieces;
  }

  /** In general: there is one longest prefix of whole pieces within 65536
      bits; decoding fails exactly when it is not byte aligned, and otherwise
      returns the bytes whose bits it is. */
  lemma {:induction false} DecodeIsOfLongestPrefix(pieces: seq<Bits>, n: nat)
    requires n <= |pieces| && |Flatten(pieces[..n])| <= 65536
    requires n < |pieces| ==> |Flatten(pieces[..n + 1])| > 65536
    ensures Decode(pieces).Err? <==> |Flatten(pieces[..n])| % 8 != 0
    ensures Decode(pieces).Err? ==> Decode(pieces).error == Error(0, "Not byte aligned")
    ensures Decode(pieces).Ok? ==> BitsOf(Decode(pieces).value) == Flatten(pieces[..n])
  {
    FittingIsLongestPrefix(pieces, BUFFER_BITS);
    var fit := Fitting(pieces, BUFFER_BITS);
    assert fit == pieces[..|fit|];
    if n < |fit| {
      var more := pieces[n + 1..|fit|];
      assert pieces[..|fit|] == pieces[..n + 1] + more;
      FlattenAppends(pieces[..n + 1], more);
      assert false;
    }
    if |Flatten(fit)| % 8 == 0 {
      AlignedBitsRoundTrip(Flatten(fit));
    }
  }

  // ----- The decoders -----

  /** `bw.concat`: writes bits at the moving pointer. */
  method Concat(buffer: array<bool>, offs: nat, data: Bits) returns (end: nat)
    requires offs + |data| <= buffer.Length
    modifies buffer
    ensures end == offs + |data| && buffer[..end] == old(buffer[..offs]) + data
  {
    ghost var before := buffer[..offs];
    for i := 0 to |data|
      invariant buffer[..offs + i] == before + data[..i]
    {
      buffer[offs + i] := data[i];
      assert buffer[..offs + i + 1] == buffer[..offs + i] + [data[i]];
      assert data[..i + 1] == data[..i] + [data[i]];
    }
    assert data[..|data|] == data;
    end := offs + |data|;
  }

  lemma {:induction false} FittingStep(pieces: seq<Bits>, room: nat, done: Bits, data: Bits, rest: seq<Bits>)
    requires pieces == [data] + rest
    ensures |data| > room ==> done + Flatten(Fitting(pieces, room)) == done
    ensures |data| <= room ==>
              done + Flatten(Fitting(pieces, room)) == (done + data) + Flatten(Fitting(rest, room - |data|))
  {
    assert pieces[1..] == rest;
    if |data| <= room {
      var tail := Fitting(rest, room - |data|);
      assert ([data] + tail)[1..] == tail;
      assert done + (data + Flatten(tail)) == (done + data) + Flatten(tail);
    }
  }

  method Finish(buffer: array<bool>, offs: nat) returns (r: Result<seq<Byte>>)
    requires offs <= buffer.Length
    ensures r == AlignedBytes(buffer[..offs])
  {
    if offs % 8 != 0 {
      return Err(NOT_ALIGNED);
    }
    return Ok(BytesOf(buffer[..offs]));
  }

  /** `parse_snake_data`; the buffer is never overrun. */
  method ParseSnakeData(cell: Cell) returns (r: Result<seq<Byte>>)
    ensures r == Decode(Pieces(cell))
  {
    var buffer := new bool[BUFFER_BITS];
    var offs: nat := 0;
    var data := cell;
    ghost var all := Flatten(Fitting(Pieces(cell), BUFFER_BITS));
    while true
      invariant offs <= buffer.Length == BUFFER_BITS
      invariant all == buffer[..offs] + Flatten(Fitting(Pieces(data), BUFFER_BITS - offs))
      decreases data
    {
      ghost var rest := if data.next.None? then [] else Pieces(data.next.value);
      FittingStep(Pieces(data), BUFFER_BITS - offs, buffer[..offs], data.data, rest);
      if offs + |data.data| > BUFFER_BITS {
        break;
      }
      offs := Concat(buffer, offs, data.data);
      if data.next.None? {
        break;
      }
      data := data.next.value;
    }
    assert all == buffer[..offs];
    r := Finish(buffer, offs);
  }

  // ----- Chunks -----

  /** What the dictionary has under a key: a reference to a cell, something
      else, or a place that cannot be read and raises an exception. */
  datatype ChunkValue = Ref(data: Bits) | NoRef | Broken(message: string)

  type Chunks = map<nat, ChunkValue>

  function KeysFrom(dict: Chunks, c: nat): set<nat> { set k | k in dict && k >= c }

  lemma {:induction false} FewerKeysFrom(dict: Chunks, c: nat)
    requires c in dict
    ensures |KeysFrom(dict, c + 1)| < |KeysFrom(dict, c)|
  {
    assert KeysFrom(dict, c) == KeysFrom(dict, c + 1) + {c};
  }

  /** The cells under keys 0, 1, 2, ... up to the first key that is missing or broken. */
  function ChunkPieces(dict: Chunks, c: nat): seq<Bits>
    decreases |KeysFrom(dict, c)|
  {
    if c !in dict || dict[c].Broken? then []
    else
      FewerKeysFrom(dict, c);
      (if dict[c].Ref? then [dict[c].data] else []) + ChunkPieces(dict, c + 1)
  }

  /** The exception those keys run into, if any. */
  function ChunkException(dict: Chunks, c: nat): Option<string>
    decreases |KeysFrom(dict, c)|
  {
    if c !in dict then None
    else if dict[c].Broken? then Some(dict[c].message)
    else
      FewerKeysFrom(dict, c);
      ChunkException(dict, c + 1)
  }

  predicate AllFit(pieces: seq<Bits>, room: nat) { Fitting(pieces, room) == pieces }

  /** The decoding of the cells that fit; a broken key counts only when all
      cells before it fit. */
  function DecodeChunks(dict: Chunks): Result<seq<Byte>> {
    var pieces, exception := ChunkPieces(dict, 0), ChunkException(dict, 0);
    if exception.Some? && AllFit(pieces, BUFFER_BITS) then Err(Error(0, CHUNKS_EXCEPTION + exception.value))
    else Decode(pieces)
  }

  lemma {:induction false} AllFitStep(pieces: seq<Bits>, room: nat, data: Bits, rest: seq<Bits>)
    requires pieces == [data] + rest
    ensures AllFit(pieces, room) <==> |data| <= room && AllFit(rest, room - |data|)
  {
    assert pieces[1..] == rest;
    if |data| <= room {
      var fit := Fitting(rest, room - |data|);
      assert ([data] + fit)[1..] == fit;
    }
  }

  /** The decoding from key `c` on, with `done` in the buffer. */
  function DecodeFrom(dict: Chunks, c: nat, done: Bits): Result<seq<Byte>>
    decreases |KeysFrom(dict, c)|
  {
    if c !in dict then AlignedBytes(done)
    else
      FewerKeysFrom(dict, c);
      match dict[c]
      case Broken(message) => Err(Error(0, CHUNKS_EXCEPTION + message))
      case NoRef => DecodeFrom(dict, c + 1, done)
      case Ref(data) =>
        if |done| + |data| > BUFFER_BITS then AlignedBytes(done) else DecodeFrom(dict, c + 1, done + data)
  }

  lemma {:induction false} DecodeFromDecodesTheRest(dict: Chunks, c: nat, done: Bits)
    requires |done| <= BUFFER_BITS
    ensures var pieces, room := ChunkPieces(dict, c), BUFFER_BITS - |done|;
            DecodeFrom(dict, c, done)
            == if ChunkException(dict, c).Some? && AllFit(pieces, room) then
                 Err(Error(0, CHUNKS_EXCEPTION + ChunkException(dict, c).value))
               else AlignedBytes(done + Flatten(Fitting(pieces, room)))
    decreases |KeysFrom(dict, c)|
  {
    if c !in dict || dict[c].Broken? {
      assert done + [] == done;
    } else {
      FewerKeysFrom(dict, c);
      if dict[c].NoRef? {
        assert ChunkPieces(dict, c) == ChunkPieces(dict, c + 1);
        DecodeFromDecodesTheRest(dict, c + 1, done);
      } else {
        var pieces, data, room := ChunkPieces(dict, c), dict[c].data, BUFFER_BITS - |done|;
        FittingStep(pieces, room, done, data, ChunkPieces(dict, c + 1));
        AllFitStep(pieces, room, data, ChunkPieces(dict, c + 1));
        if |data| <= room {
          DecodeFromDecodesTheRest(dict, c + 1, done + data);
        }
      }
    }
  }

  /** `parse_chunks_data`; the buffer is never overrun. */
  method ParseChunksData(dict: Chunks) returns (r: Result<seq<Byte>>)
    ensures r == DecodeChunks(dict)
  {
    var buffer := new bool[BUFFER_BITS];
    var offs: nat, c: nat := 0, 0;
    DecodeFromDecodesTheRest(dict, 0, buffer[..0]);
    assert buffer[..0] + Flatten(Fitting(ChunkPieces(dict, 0), BUFFER_BITS))
        == Flatten(Fitting(ChunkPieces(dict, 0), BUFFER_BITS));
    while c in dict
      invariant offs <= buffer.Length == BUFFER_BITS
      invariant DecodeFrom(dict, c, buffer[..offs]) == DecodeChunks(dict)
      decreases |KeysFrom(dict, c)|
    {
      FewerKeysFrom(dict, c);
      match dict[c] {
        case Broken(message) =>
          return Err(Error(0, CHUNKS_EXCEPTION + message));
        case NoRef =>
        case Ref(data) =>
          if offs + |data| > BUFFER_BITS {
            break;
          }
          offs := Concat(buffer, offs, data);
      }
      c := c + 1;
    }
    r := Finish(buffer, offs);
  }

  function AsChunks(pieces: seq<Bits>): Chunks {
    map i | 0 <= i < |pieces| :: Ref(pieces[i])
  }

  lemma {:induction false} ChunksFromKey(pieces: seq<Bits>, c: nat)
    requires c <= |pieces|
    ensures ChunkPieces(AsChunks(pieces), c) == pieces[c..] && ChunkException(AsChunks(pieces), c).None?
    decreases |pieces| - c
  {
    if c < |pieces| {
      ChunksFromKey(pieces, c + 1);
      assert pieces[c..] == [pieces[c]] + pieces[c + 1..];
    }
  }

  /** The same pieces decode alike from a chain of cells and from a dictionary
      that stores them under 0, 1, 2, ... */
  lemma {:induction false} ChunksAgreeWithSnake(cell: Cell)
    ensures DecodeChunks(AsChunks(Pieces(cell))) == Decode(Pieces(cell))
  {
    ChunksFromKey(Pieces(cell), 0);
    assert Pieces(cell)[0..] == Pieces(cell);
  }

  /** The cells among some values. */
  function Cells(values: seq<ChunkValue>): seq<Bits> {
    if values == [] then [] else (if values[0].Ref? then [values[0].data] else []) + Cells(values[1..])
  }

  /** The dictionary holds `values` from key `c` on, and none of them is broken. */
  ghost predicate Lists(dict: Chunks, c: nat, values: seq<ChunkValue>) {
    forall i | 0 <= i < |values| :: ListsAt(dict, c + i, values[i])
  }

  predicate ListsAt(dict: Chunks, k: nat, value: ChunkValue) {
    k in dict && dict[k] == value && !value.Broken?
  }

  lemma {:induction false} ListedPieces(dict: Chunks, c: nat, values: seq<ChunkValue>)
    requires Lists(dict, c, values) && (c + |values| in dict ==> dict[c + |values|].Broken?)
    ensures ChunkPieces(dict, c) == Cells(values)
    ensures ChunkException(dict, c)
         == if c + |values| in dict then Some(dict[c + |values|].message) else None
    decreases |values|
  {
    if values != [] {
      assert ListsAt(dict, c + 0, values[0]);
      forall i | 0 <= i < |values| - 1
        ensures ListsAt(dict, c + 1 + i, values[1..][i])
      {
        assert ListsAt(dict, c + (i + 1), values[i + 1]);
      }
      ListedPieces(dict, c + 1, values[1..]);
    }
  }

  /** Any dictionary, read from key 0 up to its first gap or broken value: the
      cells there are decoded in order, values that are no reference are passed
      over, and a broken value raises the exception unless the buffer is full
      before it. */
  lemma {:induction false} ChunksAreReadInOrder(dict: Chunks, values: seq<ChunkValue>)
    requires Lists(dict, 0, values) && (|values| in dict ==> dict[|values|].Broken?)
    ensures DecodeChunks(dict)
         == if |values| in dict && |Flatten(Cells(values))| <= 65536 then
              Err(Error(0, "Exception while parsing chunks data: " + dict[|values|].message))
            else Decode(Cells(values))
  {
    ListedPieces(dict, 0, values);
    var pieces := Cells(values);
    FittingIsLongestPrefix(pieces, BUFFER_BITS);
    assert pieces[..|pieces|] == pieces;
  }

  /** Any non-empty list of pieces is the content of a chain of cells. */
  function ChainOf(pieces: seq<Bits>): Cell
    requires pieces != []
  {
    Cell(pieces[0], if |pieces| == 1 then None else Some(ChainOf(pieces[1..])))
  }

  lemma {:induction false} ChainHoldsItsPieces(pieces: seq<Bits>)
    requires pieces != []
    ensures Pieces(ChainOf(pieces)) == pieces
  {
    if |pieces| > 1 {
      ChainHoldsItsPieces(pieces[1..]);
    }
  }
}
