/** The end of a table file: where its metaindex and index blocks are, and the number that marks such files. */
module Footer {
  import opened Wrappers
  import opened Bytewise
  import opened Coding

  const HANDLES: nat := 40
  const LENGTH: nat := 48
  const MAGIC_LOW: nat := 0x8b80_fb57
  const MAGIC_HIGH: nat := 0xdb47_7524

  type Handle = (nat, nat)

  function EncodeHandle(offset: nat, size: nat): Bytes {
    Varint(offset) + Varint(size)
  }

  /** A handle at the front, and what comes after it. */
  function GetHandle(b: Bytes): Option<(Handle, Bytes)> {
    match GetVarint64(b)
    case None => None
    case Some((offset, rest)) =>
      match GetVarint64(rest)
      case None => None
      case Some((size, left)) => Some(((offset, size), left))
  }

  function DecodeHandle(b: Bytes): Option<Handle> {
    match GetHandle(b)
    case None => None
    case Some((handle, left)) => Some(handle)
  }

  lemma GetHandleReads(offset: nat, size: nat, rest: Bytes)
    requires offset < BITS_64 && size < BITS_64
    ensures GetHandle(EncodeHandle(offset, size) + rest) == Some(((offset, size), rest))
  {
    hide Varint, GetVarint64;
    VarintsRoundTrip(offset, Varint(size) + rest);
    VarintsRoundTrip(size, rest);
    assert EncodeHandle(offset, size) + rest == Varint(offset) + (Varint(size) + rest);
  }

  lemma HandleRoundTrip(offset: nat, size: nat)
    requires offset < BITS_64 && size < BITS_64
    ensures DecodeHandle(EncodeHandle(offset, size)) == Some((offset, size))
  {
    hide GetHandle, EncodeHandle;
    GetHandleReads(offset, size, []);
    assert EncodeHandle(offset, size) + [] == EncodeHandle(offset, size);
  }

  lemma HandleSize(offset: nat, size: nat)
    requires offset < BITS_64 && size < BITS_64
    ensures |EncodeHandle(offset, size)| <= 20
  {
    VarintSizes(offset);
    VarintSizes(size);
  }

  datatype Footer = Footer(metaindex: Handle, index: Handle)

  predicate Fits(f: Footer) {
    f.metaindex.0 < BITS_64 && f.metaindex.1 < BITS_64 && f.index.0 < BITS_64 && f.index.1 < BITS_64
  }

  function Handles(f: Footer): Bytes {
    EncodeHandle(f.metaindex.0, f.metaindex.1) + EncodeHandle(f.index.0, f.index.1)
  }

  /** Both handles, padded, and the magic number in two words. */
  function Encode(f: Footer): (b: Bytes)
    requires Fits(f)
    ensures |b| == LENGTH
  {
    HandlesFit(f);
    Handles(f) + Zeros(HANDLES - |Handles(f)|) + Fixed(MAGIC_LOW, 4) + Fixed(MAGIC_HIGH, 4)
  }

  lemma HandlesFit(f: Footer)
    requires Fits(f)
    ensures |Handles(f)| <= HANDLES
  {
    HandleSize(f.metaindex.0, f.metaindex.1);
    HandleSize(f.index.0, f.index.1);
  }

  /** The last bytes of a file; nothing unless they carry the magic number and two handles. */
  function Decode(b: Bytes): Option<Footer>
    requires |b| == LENGTH
  {
    if Unfixed(b[HANDLES..HANDLES + 4]) != MAGIC_LOW || Unfixed(b[HANDLES + 4..]) != MAGIC_HIGH then None
    else
      match GetHandle(b)
      case None => None
      case Some((metaindex, rest)) =>
        match GetHandle(rest)
        case None => None
        case Some((index, padding)) => Some(Footer(metaindex, index))
  }

  lemma RoundTrip(f: Footer)
    requires Fits(f)
    ensures Decode(Encode(f)) == Some(f)
  {
    hide GetHandle, EncodeHandle, Fixed, Unfixed;
    HandlesFit(f);
    FixedWidths(MAGIC_LOW);
    FixedWidths(MAGIC_HIGH);
    var b, pad := Encode(f), Zeros(HANDLES - |Handles(f)|);
    var tail := pad + Fixed(MAGIC_LOW, 4) + Fixed(MAGIC_HIGH, 4);
    assert b[HANDLES..HANDLES + 4] == Fixed(MAGIC_LOW, 4) && b[HANDLES + 4..] == Fixed(MAGIC_HIGH, 4);
    var rest := EncodeHandle(f.index.0, f.index.1) + tail;
    assert b == EncodeHandle(f.metaindex.0, f.metaindex.1) + rest;
    GetHandleReads(f.metaindex.0, f.metaindex.1, rest);
    GetHandleReads(f.index.0, f.index.1, tail);
  }
}
