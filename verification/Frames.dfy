/** Log frames: the header and padding a frame is written with, and the scanner that finds frames again. */
module Frames {
  import opened Common

  const U32: nat := 0x1_0000_0000
  const U64: nat := 0x1_0000_0000_0000_0000

  /** A 32-bit checksum of any kind. */
  type Checksum = Bytes -> nat

  const MAGIC: Bytes := [66, 75, 76, 49]

  // ----- Little-endian numbers -----

  function ToLe(n: nat, width: nat): (r: Bytes)
    ensures |r| == width
  {
    if width == 0 then [] else [(n % 256) as byte] + ToLe(n / 256, width - 1)
  }

  function FromLe(s: Bytes): nat {
    if s == [] then 0 else s[0] as nat + 256 * FromLe(s[1..])
  }

  function Power256(width: nat): nat {
    if width == 0 then 1 else 256 * Power256(width - 1)
  }

  lemma {:induction false} LeRoundTrip(n: nat, width: nat)
    requires n < Power256(width)
    ensures FromLe(ToLe(n, width)) == n
  {
    if width != 0 {
      assert n / 256 < Power256(width - 1);
      LeRoundTrip(n / 256, width - 1);
      assert ToLe(n, width)[1..] == ToLe(n / 256, width - 1);
    }
  }

  lemma Widths()
    ensures Power256(4) == U32 && Power256(8) == U64
  {
    assert Power256(4) == 256 * (256 * (256 * (256 * Power256(0))));
    assert Power256(8) == 256 * (256 * (256 * (256 * Power256(4))));
  }

  // ----- Writing -----

  function Zeros(n: nat): (r: Bytes)
    ensures |r| == n && forall i :: 0 <= i < n ==> r[i] == 0
  {
    seq(n, i => 0)
  }

  /** The checksummed part of a header; the length is cut to 32 bits. */
  function Described(seqno: nat, len: nat): (r: Bytes)
    ensures |r| == 16
  {
    ToLe(seqno, 8) + ToLe(len % U32, 4) + [0, 0, 0, 0]
  }

  function Header(crc: Checksum, seqno: nat, len: nat): (r: Bytes)
    ensures |r| == HEADER_LEN
  {
    MAGIC + ToLe(crc(Described(seqno, len)) % U32, 4) + Described(seqno, len)
  }

  function EncodeFrame(crc: Checksum, seqno: nat, payload: Bytes): (r: Bytes)
    ensures |r| == FrameSize(|payload|)
    ensures r[..HEADER_LEN] == Header(crc, seqno, |payload|) && r[HEADER_LEN..HEADER_LEN + |payload|] == payload
  {
    Header(crc, seqno, |payload|) + payload + Zeros(FrameSize(|payload|) - HEADER_LEN - |payload|)
  }

  // ----- Reading -----

  /** The sequence number and payload length a header gives, if it is one. */
  function ParseHeader(crc: Checksum, bytes: Bytes): Option<(nat, nat)> {
    if |bytes| < HEADER_LEN || bytes[..4] != MAGIC || bytes[20..24] != [0, 0, 0, 0] then None
    else if crc(bytes[8..24]) % U32 != FromLe(bytes[4..8]) then None
    else Some((FromLe(bytes[8..16]), FromLe(bytes[16..20])))
  }

  /** Parsing a header gives back what it was made from, as far as the fields are wide. */
  lemma ParsesBack(crc: Checksum, seqno: nat, len: nat, rest: Bytes)
    requires seqno < U64
    ensures ParseHeader(crc, Header(crc, seqno, len) + rest) == Some((seqno, len % U32))
  {
    var bytes := Header(crc, seqno, len) + rest;
    Widths();
    var sum := crc(Described(seqno, len)) % U32;
    LeRoundTrip(sum, 4);
    LeRoundTrip(seqno, 8);
    LeRoundTrip(len % U32, 4);
    assert bytes[..4] == MAGIC;
    assert bytes[4..8] == ToLe(sum, 4);
    assert bytes[8..24] == Described(seqno, len);
    assert bytes[8..16] == ToLe(seqno, 8);
    assert bytes[16..20] == ToLe(len % U32, 4);
    assert bytes[20..24] == [0, 0, 0, 0];
  }

  predicate HeaderAt(crc: Checksum, bytes: Bytes, p: nat) {
    p < |bytes| && ParseHeader(crc, bytes[p..]).Some?
  }

  /** The first place at or after `p` with a header, or the end. */
  function FirstHeader(crc: Checksum, bytes: Bytes, p: nat): (r: nat)
    requires p <= |bytes|
    ensures p <= r <= |bytes| && (r < |bytes| ==> HeaderAt(crc, bytes, r))
    ensures forall q :: p <= q < r ==> !HeaderAt(crc, bytes, q)
    decreases |bytes| - p
  {
    if p == |bytes| || HeaderAt(crc, bytes, p) then p else FirstHeader(crc, bytes, p + 1)
  }

  datatype Frame = Frame(offset: nat, seqno: nat, payload: Bytes, len: nat)

  /** The frame whose header is at `p`, unless it runs past the end or is too long to record. */
  function FrameAt(crc: Checksum, bytes: Bytes, p: nat): (r: Option<Frame>)
    requires HeaderAt(crc, bytes, p)
  {
    var (seqno, len) := ParseHeader(crc, bytes[p..]).value;
    if |bytes| < p + HEADER_LEN + len || U32 <= FrameSize(len) then None
    else Some(Frame(p, seqno, bytes[p + HEADER_LEN..p + HEADER_LEN + len], FrameSize(len)))
  }

  /** All frames from `p` on: each begins at the first header past the one before it. */
  function Scanned(crc: Checksum, bytes: Bytes, p: nat): seq<Frame>
    requires p <= |bytes|
    decreases |bytes| - p
  {
    var q := FirstHeader(crc, bytes, p);
    if q == |bytes| then []
    else
      var f := FrameAt(crc, bytes, q);
      if f.None? then [] else [f.value] + Scanned(crc, bytes, Min(q + f.value.len, |bytes|))
  }

  predicate MagicAt(bytes: Bytes, q: nat) {
    q + 4 <= |bytes| && bytes[q..q + 4] == MAGIC
  }

  lemma NoHeaderNoMagic(crc: Checksum, bytes: Bytes, q: nat)
    requires !MagicAt(bytes, q)
    ensures !HeaderAt(crc, bytes, q)
  {
    if q + 4 <= |bytes| {
      assert bytes[q..][..4] == bytes[q..q + 4];
    }
  }

  /** Skipping places without a header finds the same first header. */
  lemma {:induction false} SkipToHeader(crc: Checksum, bytes: Bytes, p: nat, q: nat)
    requires p <= q <= |bytes| && forall i :: p <= i < q ==> !HeaderAt(crc, bytes, i)
    ensures FirstHeader(crc, bytes, p) == FirstHeader(crc, bytes, q)
    decreases q - p
  {
    if p < q {
      SkipToHeader(crc, bytes, p + 1, q);
    }
  }

  /** A scanner over the bytes of a segment. */
  class Scanner {
    const crc: Checksum
    const bytes: Bytes
    var position: nat

    ghost predicate Valid()
      reads this
    {
      position <= |bytes|
    }

    constructor (crc: Checksum, bytes: Bytes)
      ensures Valid() && position == 0 && this.crc == crc && this.bytes == bytes
    {
      this.crc, this.bytes, position := crc, bytes, 0;
    }

    /** The next frame. Every frame returned moves the scanner forward. */
    method Next() returns (r: Option<Frame>)
      requires Valid()
      modifies this
      ensures Valid() && old(position) <= position
      ensures Scanned(crc, bytes, old(position)) == if r.Some? then [r.value] + Scanned(crc, bytes, position) else []
      ensures r.Some? ==> old(position) < position && old(position) <= r.value.offset
    {
      hide ParseHeader, FrameSize, Scanned, HeaderAt, MagicAt;
      ghost var start := position;
      while position + HEADER_LEN <= |bytes|
        invariant start <= position <= |bytes|
        invariant forall q :: start <= q < position ==> !HeaderAt(crc, bytes, q)
        decreases |bytes| - position
      {
        var offset := position;
        var header := ParseHeader(crc, bytes[offset..]);
        IsHeader(crc, bytes, offset);
        if header.None? {
          var next := FindMagic(bytes, offset + 1);
          NoMagicBetween(crc, bytes, offset + 1, next);
          if next == |bytes| {
            ScanEnd(crc, bytes, start);
            return None;
          }
          position := next;
        } else {
          ScanHeader(crc, bytes, start, offset);
          var len := header.value.1;
          var end := offset + HEADER_LEN + len;
          if |bytes| < end {
            position := |bytes|;
            return None;
          }
          if U32 <= FrameSize(len) {
            return None;
          }
          position := Min(offset + FrameSize(len), |bytes|);
          return Some(Frame(offset, header.value.0, bytes[offset + HEADER_LEN..end], FrameSize(len)));
        }
      }
      TooShort(crc, bytes, position);
      ScanEnd(crc, bytes, start);
      return None;
    }
  }

  lemma IsHeader(crc: Checksum, bytes: Bytes, p: nat)
    requires p < |bytes|
    ensures HeaderAt(crc, bytes, p) <==> ParseHeader(crc, bytes[p..]).Some?
  {
  }

  lemma TooShort(crc: Checksum, bytes: Bytes, p: nat)
    requires |bytes| < p + HEADER_LEN
    ensures forall q: nat :: p <= q ==> !HeaderAt(crc, bytes, q)
  {
  }

  lemma ScanEnd(crc: Checksum, bytes: Bytes, p: nat)
    requires p <= |bytes| && forall q :: p <= q < |bytes| ==> !HeaderAt(crc, bytes, q)
    ensures Scanned(crc, bytes, p) == []
  {
    SkipToHeader(crc, bytes, p, |bytes|);
  }

  lemma ScanHeader(crc: Checksum, bytes: Bytes, p: nat, offset: nat)
    requires p <= offset && HeaderAt(crc, bytes, offset) && forall q :: p <= q < offset ==> !HeaderAt(crc, bytes, q)
    ensures var header := ParseHeader(crc, bytes[offset..]).value;
            var end := offset + HEADER_LEN + header.1;
            Scanned(crc, bytes, p)
            == if |bytes| < end || U32 <= FrameSize(header.1) then []
               else [Frame(offset, header.0, bytes[offset + HEADER_LEN..end], FrameSize(header.1))]
                    + Scanned(crc, bytes, Min(offset + FrameSize(header.1), |bytes|))
  {
    hide ParseHeader, FrameSize;
    SkipToHeader(crc, bytes, p, offset);
    assert FirstHeader(crc, bytes, offset) == offset;
    hide FirstHeader;
  }

  /** The first place at or after `p` where the magic number stands, or the end. */
  method FindMagic(bytes: Bytes, p: nat) returns (r: nat)
    requires p <= |bytes|
    ensures p <= r <= |bytes| && (r < |bytes| ==> MagicAt(bytes, r))
    ensures forall q :: p <= q < r ==> !MagicAt(bytes, q)
  {
    r := p;
    while r + 4 <= |bytes|
      invariant p <= r <= |bytes|
      invariant forall q :: p <= q < r ==> !MagicAt(bytes, q)
    {
      if bytes[r..r + 4] == MAGIC {
        return;
      }
      r := r + 1;
    }
    r := |bytes|;
  }

  lemma NoMagicBetween(crc: Checksum, bytes: Bytes, p: nat, r: nat)
    requires p <= r <= |bytes| && forall q :: p <= q < r ==> !MagicAt(bytes, q)
    ensures forall q :: p <= q < r ==> !HeaderAt(crc, bytes, q)
  {
    forall q | p <= q < r
      ensures !HeaderAt(crc, bytes, q)
    {
      NoHeaderNoMagic(crc, bytes, q);
    }
  }

  /** Reads a whole segment. */
  method Scan(crc: Checksum, bytes: Bytes) returns (frames: seq<Frame>)
    ensures frames == Scanned(crc, bytes, 0)
  {
    var scanner := new Scanner(crc, bytes);
    frames := [];
    var more := true;
    while more
      invariant scanner.Valid() && scanner.crc == crc && scanner.bytes == bytes
      invariant Scanned(crc, bytes, 0) == frames + if more then Scanned(crc, bytes, scanner.position) else []
      decreases more, |bytes| - scanner.position
    {
      var f := scanner.Next();
      if f.Some? {
        frames := frames + [f.value];
      } else {
        more := false;
      }
    }
  }

  // ----- The scanner inverts the writer -----

  /** A frame to write, after a run of zero bytes. */
  datatype Item = Item(gap: nat, seqno: nat, payload: Bytes)

  /** The frame's numbers fit the header's fields, and its length the scanner's. */
  predicate Fits(item: Item) {
    item.seqno < U64 && FrameSize(|item.payload|) < U32
  }

  function Written(crc: Checksum, items: seq<Item>, tail: nat): Bytes {
    if items == [] then Zeros(tail)
    else Zeros(items[0].gap) + EncodeFrame(crc, items[0].seqno, items[0].payload) + Written(crc, items[1..], tail)
  }

  /** The frames as the writer placed them, from a given offset on. */
  function Placed(items: seq<Item>, from: nat): seq<Frame> {
    if items == [] then []
    else
      var start, len := from + items[0].gap, FrameSize(|items[0].payload|);
      [Frame(start, items[0].seqno, items[0].payload, len)] + Placed(items[1..], start + len)
  }

  /** No header starts in a run of zeros. */
  lemma ZerosHoldNoHeader(crc: Checksum, before: Bytes, gap: nat, after: Bytes)
    ensures forall q :: |before| <= q < |before| + gap ==> !HeaderAt(crc, before + Zeros(gap) + after, q)
  {
    var bytes := before + Zeros(gap) + after;
    forall q | |before| <= q < |before| + gap
      ensures !HeaderAt(crc, bytes, q)
    {
      assert bytes[q] == 0;
      assert q + 4 <= |bytes| ==> bytes[q..q + 4][0] == 0;
      NoHeaderNoMagic(crc, bytes, q);
    }
  }

  /**
   Scanning what was written, from where the writer began, finds exactly the frames written, with
   their offsets, and nothing in the zeros between, before or after them.
   */
  lemma {:induction false} ScanFindsWritten(crc: Checksum, before: Bytes, items: seq<Item>, tail: nat)
    requires forall i :: 0 <= i < |items| ==> Fits(items[i])
    ensures Scanned(crc, before + Written(crc, items, tail), |before|) == Placed(items, |before|)
    decreases |items|
  {
    hide Scanned, HeaderAt, FrameSize, EncodeFrame, Header, Fits;
    if items == [] {
      ZerosHoldNoHeader(crc, before, tail, []);
      assert before + Zeros(tail) + [] == before + Written(crc, items, tail);
      ScanEnd(crc, before + Written(crc, items, tail), |before|);
    } else {
      var item, rest := items[0], Written(crc, items[1..], tail);
      var frame := EncodeFrame(crc, item.seqno, item.payload);
      var bytes := before + Written(crc, items, tail);
      ZerosHoldNoHeader(crc, before, item.gap, frame + rest);
      assert before + Zeros(item.gap) + (frame + rest) == bytes;
      ScanOne(crc, before + Zeros(item.gap), item, rest, |before|);
      var next := before + Zeros(item.gap) + frame;
      assert next + rest == bytes;
      ScanFindsWritten(crc, next, items[1..], tail);
    }
  }

  /** A written frame is the next thing the scanner finds. */
  lemma ScanOne(crc: Checksum, before: Bytes, item: Item, rest: Bytes, p: nat)
    requires Fits(item) && p <= |before|
    requires forall q :: p <= q < |before| ==> !HeaderAt(crc, before + (EncodeFrame(crc, item.seqno, item.payload) + rest), q)
    ensures var frame := EncodeFrame(crc, item.seqno, item.payload);
            Scanned(crc, before + (frame + rest), p)
            == [Frame(|before|, item.seqno, item.payload, |frame|)] + Scanned(crc, before + frame + rest, |before| + |frame|)
  {
    hide ParseHeader, EncodeFrame, Scanned, HeaderAt, FrameSize, Header;
    var frame := EncodeFrame(crc, item.seqno, item.payload);
    assert before + (frame + rest) == before + frame + rest;
    FrameReads(crc, before, item, rest);
    ScanHeader(crc, before + (frame + rest), p, |before|);
  }

  /** A written frame's header and payload are where it was written. */
  lemma FrameReads(crc: Checksum, before: Bytes, item: Item, rest: Bytes)
    requires item.seqno < U64 && |item.payload| < U32
    ensures var frame := EncodeFrame(crc, item.seqno, item.payload);
            var bytes := before + (frame + rest);
            var len := |item.payload|;
            && HeaderAt(crc, bytes, |before|)
            && ParseHeader(crc, bytes[|before|..]) == Some((item.seqno, len))
            && |before| + |frame| <= |bytes| && |frame| == FrameSize(len)
            && |before| + HEADER_LEN + len <= |bytes|
            && bytes[|before| + HEADER_LEN..|before| + HEADER_LEN + len] == item.payload
  {
    hide ParseHeader, Header, EncodeFrame, FrameSize;
    var frame := EncodeFrame(crc, item.seqno, item.payload);
    var bytes := before + (frame + rest);
    var len := |item.payload|;
    ParsesBack(crc, item.seqno, len, frame[HEADER_LEN..] + rest);
    assert frame == frame[..HEADER_LEN] + frame[HEADER_LEN..];
    assert bytes[|before|..] == Header(crc, item.seqno, len) + (frame[HEADER_LEN..] + rest);
    assert bytes[|before| + HEADER_LEN..|before| + HEADER_LEN + len] == frame[HEADER_LEN..HEADER_LEN + len];
  }

  /** A frame is found as it was written exactly when its whole length fits 32 bits. */
  lemma FoundWhenShort(crc: Checksum, item: Item)
    requires item.seqno < U64
    ensures Scanned(crc, EncodeFrame(crc, item.seqno, item.payload), 0) == Placed([item.(gap := 0)], 0) <==> Fits(item)
  {
    var frame := EncodeFrame(crc, item.seqno, item.payload);
    if Fits(item) {
      ScanFindsWritten(crc, [], [item.(gap := 0)], 0);
      assert [] + Written(crc, [item.(gap := 0)], 0) == frame;
    } else {
      assert |frame| == FrameSize(|item.payload|);
      assert |Placed([item.(gap := 0)], 0)[0].payload| == |item.payload|;
      hide ParseHeader, EncodeFrame, Scanned, FrameSize, Header;
      assert frame == Header(crc, item.seqno, |item.payload|) + frame[HEADER_LEN..];
      ParsesBack(crc, item.seqno, |item.payload|, frame[HEADER_LEN..]);
      assert frame[0..] == frame;
      ScanHeader(crc, frame, 0, 0);
    }
  }
}
