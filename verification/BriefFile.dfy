/** The brief file: length-prefixed records, as write_brief produces and _load_brief consumes them. */
module BriefFile {
  import opened IndexTypes

  type Byte = b: nat | b < 256

  const BUFF_SIZE: nat := 102400

  /** Serialisation of a brief; its format is the library's. */
  type Serializer = Brief -> seq<Byte>
  type Parser = seq<Byte> -> Option<Brief>

  /** The four bytes of an `int`, least significant first. */
  function EncodeSize(n: nat): (r: seq<Byte>)
    requires n < 0x8000_0000
    ensures |r| == 4
  {
    [n % 256, n / 256 % 256, n / 65536 % 256, n / 16777216]
  }

  /** Those bytes read back as a signed 32-bit value. */
  function DecodeSize(b: seq<Byte>): int
    requires |b| == 4
  {
    var b0: int, b1: int, b2: int, b3: int := b[0], b[1], b[2], b[3];
    var u := b0 + 256 * b1 + 65536 * b2 + 16777216 * b3;
    if u < 0x8000_0000 then u else u - 0x1_0000_0000
  }

  lemma SizeRoundTrip(n: nat)
    requires n < 0x8000_0000
    ensures DecodeSize(EncodeSize(n)) == n
  {
    var q := n / 256;
    assert n == 256 * q + n % 256;
    var q2 := q / 256;
    assert q == 256 * q2 + q % 256 && q2 == n / 65536;
    var q3 := q2 / 256;
    assert q2 == 256 * q3 + q2 % 256 && q3 == n / 16777216;
  }

  /** The bytes are the digits of the length to the base 256, least significant first, and four bytes are
      read back as the number with these digits, less 2^32 from 2^31 on. */
  lemma SizeDigits(n: nat, b: seq<Byte>)
    requires n < 0x8000_0000 && |b| == 4
    ensures var e := EncodeSize(n);
      e[0] as int + 0x100 * e[1] as int + 0x1_0000 * e[2] as int + 0x100_0000 * e[3] as int == n
    ensures var u := b[0] as int + 0x100 * b[1] as int + 0x1_0000 * b[2] as int + 0x100_0000 * b[3] as int;
      DecodeSize(b) == if u <= 0x7FFF_FFFF then u else u - 0x1_0000_0000
  {
    var q := n / 256;
    assert n == 256 * q + n % 256;
    var q2 := q / 256;
    assert q == 256 * q2 + q % 256 && q2 == n / 65536;
    var q3 := q2 / 256;
    assert q2 == 256 * q3 + q2 % 256 && q3 == n / 16777216;
  }

  /** What write_brief appends for one record. An empty record makes the second fwrite report
      failure after the length is already out. */
  function Frame(record: seq<Byte>): seq<Byte>
    requires |record| < 0x8000_0000
  {
    EncodeSize(|record|) + record
  }

  predicate Writable(briefs: seq<Brief>, ser: Serializer) {
    forall b | b in briefs :: 0 < |ser(b)| < 0x8000_0000
  }

  /** The file after the given briefs have been written. */
  function Frames(briefs: seq<Brief>, ser: Serializer): seq<Byte>
    requires Writable(briefs, ser)
  {
    if briefs == [] then [] else Frame(ser(briefs[0])) + Frames(briefs[1..], ser)
  }

  /** `fread(buff, size, 1, fp)` delivers its record: a negative size becomes a huge `size_t`,
      and a size of zero reports zero records. */
  predicate Readable(size: int, available: nat) {
    0 < size <= available
  }

  /** The records _load_brief finds, or None where it fails. */
  function ParseBriefs(bytes: seq<Byte>, parse: Parser): Option<seq<Brief>>
    decreases |bytes|
  {
    if |bytes| < 4 then Some([])
    else
      var size := DecodeSize(bytes[..4]);
      if size > BUFF_SIZE || !Readable(size, |bytes| - 4) then None
      else
        var brief := parse(bytes[4..4 + size]);
        var rest := ParseBriefs(bytes[4 + size..], parse);
        if brief.None? || rest.None? then None else Some([brief.value] + rest.value)
  }

  /** The loop of _load_brief. */
  method LoadBrief(file: seq<Byte>, parse: Parser) returns (briefs: Option<seq<Brief>>)
    ensures briefs == ParseBriefs(file, parse)
  {
    var stream := file;
    var loaded: seq<Brief> := [];
    assert forall l: seq<Brief> :: [] + l == l;
    while |stream| >= 4
      invariant var rest := ParseBriefs(stream, parse);
        ParseBriefs(file, parse) == if rest.None? then None else Some(loaded + rest.value)
      decreases |stream|
    {
      var size := DecodeSize(stream[..4]);
      if size > BUFF_SIZE {
        return None;
      }
      if !Readable(size, |stream| - 4) {
        return None;
      }
      var brief := parse(stream[4..4 + size]);
      if brief.None? {
        return None;
      }
      var rest := ParseBriefs(stream[4 + size..], parse);
      assert rest.Some? ==> loaded + ([brief.value] + rest.value) == loaded + [brief.value] + rest.value;
      loaded := loaded + [brief.value];
      stream := stream[4 + size..];
    }
    assert loaded + [] == loaded;
    return Some(loaded);
  }

  ghost predicate Inverse(briefs: seq<Brief>, ser: Serializer, parse: Parser) {
    forall b | b in briefs :: parse(ser(b)) == Some(b)
  }

  lemma ParseFrame(record: seq<Byte>, tail: seq<Byte>, parse: Parser)
    requires 0 < |record| < 0x8000_0000
    ensures ParseBriefs(Frame(record) + tail, parse) ==
      if |record| > BUFF_SIZE || parse(record).None? || ParseBriefs(tail, parse).None? then None
      else Some([parse(record).value] + ParseBriefs(tail, parse).value)
  {
    var bytes := Frame(record) + tail;
    SizeRoundTrip(|record|);
    assert bytes[..4] == EncodeSize(|record|);
    assert bytes[4..4 + |record|] == record;
    assert bytes[4 + |record|..] == tail;
  }

  predicate Fits(briefs: seq<Brief>, ser: Serializer) {
    forall b | b in briefs :: |ser(b)| <= BUFF_SIZE
  }

  lemma FramesCons(b: Brief, rest: seq<Brief>, ser: Serializer)
    requires Writable([b] + rest, ser)
    ensures Writable(rest, ser) && 0 < |ser(b)| < 0x8000_0000
    ensures Frames([b] + rest, ser) == Frame(ser(b)) + Frames(rest, ser)
  {
    assert b in [b] + rest;
    assert forall x | x in rest :: x in [b] + rest;
    assert ([b] + rest)[1..] == rest;
  }

  /** Whole records in front of anything are read as they were written. */
  lemma {:induction false} ParseFrames(briefs: seq<Brief>, tail: seq<Byte>, ser: Serializer, parse: Parser)
    requires Writable(briefs, ser) && Inverse(briefs, ser, parse)
    ensures var rest := ParseBriefs(tail, parse);
      ParseBriefs(Frames(briefs, ser) + tail, parse)
      == if !Fits(briefs, ser) || rest.None? then None else Some(briefs + rest.value)
  {
    hide ParseBriefs, Frame, Frames;
    if briefs == [] {
      FramesNil(ser);
      assert [] + tail == tail;
      assert forall l: seq<Brief> :: [] + l == l;
    } else {
      var b, t := briefs[0], briefs[1..];
      assert briefs == [b] + t && b in briefs && forall x | x in t :: x in briefs;
      ParseFrames(t, tail, ser, parse);
      FramesCons(b, t, ser);
      ParseFrame(ser(b), Frames(t, ser) + tail, parse);
      assert Frames(briefs, ser) + tail == Frame(ser(b)) + (Frames(t, ser) + tail);
      assert Fits(briefs, ser) <==> |ser(b)| <= BUFF_SIZE && Fits(t, ser);
      assert forall l: seq<Brief> :: [b] + (t + l) == briefs + l;
    }
  }

  lemma FramesNil(ser: Serializer)
    ensures Frames([], ser) == []
  {
  }

  /** Round trip: loading what write_brief wrote gives the briefs back, in order, exactly when no
      record exceeds the reader's buffer; otherwise the load fails. */
  lemma BriefRoundTrip(briefs: seq<Brief>, ser: Serializer, parse: Parser)
    requires Writable(briefs, ser) && Inverse(briefs, ser, parse)
    ensures ParseBriefs(Frames(briefs, ser), parse) == if Fits(briefs, ser) then Some(briefs) else None
    ensures Fits(briefs, ser) <==> forall b | b in briefs :: |ser(b)| <= 102400
  {
    ParseFrames(briefs, [], ser, parse);
    assert Frames(briefs, ser) + [] == Frames(briefs, ser);
    assert briefs + [] == briefs;
  }

  lemma {:induction false} FramesConcat(a: seq<Brief>, b: seq<Brief>, ser: Serializer)
    requires Writable(a, ser) && Writable(b, ser)
    ensures Writable(a + b, ser) && Frames(a + b, ser) == Frames(a, ser) + Frames(b, ser)
  {
    hide Frames, Frame;
    FramesNil(ser);
    if a == [] {
      assert a + b == b;
    } else {
      var x, t := a[0], a[1..];
      assert a == [x] + t && a + b == [x] + (t + b);
      assert forall y | y in t :: y in a;
      FramesConcat(t, b, ser);
      FramesCons(x, t, ser);
      assert forall y | y in [x] + (t + b) :: y in a || y in b;
      FramesCons(x, t + b, ser);
    }
  }

  /** A file cut off after `k` whole records and `extra` bytes of the next: a torn length is taken
      for the end of the file, a torn record for a failure. So a truncated file either fails to load
      or yields a prefix of what was written. */
  lemma Truncation(briefs: seq<Brief>, ser: Serializer, parse: Parser, k: nat, extra: nat)
    requires Writable(briefs, ser) && Inverse(briefs, ser, parse) && Fits(briefs, ser)
    requires k <= |briefs| && (k == |briefs| ==> extra == 0)
    requires k < |briefs| ==> extra < 4 + |ser(briefs[k])|
    ensures |Frames(briefs[..k], ser)| + extra <= |Frames(briefs, ser)|
    ensures ParseBriefs(Frames(briefs, ser)[..|Frames(briefs[..k], ser)| + extra], parse)
            == if extra < 4 then Some(briefs[..k]) else None
  {
    hide ParseBriefs, Frames, Writable, Inverse, Fits;
    var a, b := briefs[..k], briefs[k..];
    Parts(briefs, ser, parse, k);
    FramesConcat(a, b, ser);
    TornFile(b, ser, parse, extra);
    TakeInto(Frames(a, ser), Frames(b, ser), extra);
    ParseFrames(a, Frames(b, ser)[..extra], ser, parse);
    assert a + [] == a;
  }

  lemma Parts(briefs: seq<Brief>, ser: Serializer, parse: Parser, k: nat)
    requires Writable(briefs, ser) && Inverse(briefs, ser, parse) && Fits(briefs, ser) && k <= |briefs|
    ensures Writable(briefs[..k], ser) && Inverse(briefs[..k], ser, parse) && Fits(briefs[..k], ser)
    ensures Writable(briefs[k..], ser) && Fits(briefs[k..], ser) && briefs[..k] + briefs[k..] == briefs
  {
  }

  /** The torn end of the file alone. */
  lemma TornFile(briefs: seq<Brief>, ser: Serializer, parse: Parser, extra: nat)
    requires Writable(briefs, ser) && Fits(briefs, ser)
    requires if briefs == [] then extra == 0 else extra < 4 + |ser(briefs[0])|
    ensures extra <= |Frames(briefs, ser)|
    ensures ParseBriefs(Frames(briefs, ser)[..extra], parse) == if extra < 4 then Some([]) else None
  {
    hide ParseBriefs, Frames;
    if briefs == [] {
      FramesNil(ser);
      ParseNothing(parse);
    } else {
      assert briefs == [briefs[0]] + briefs[1..] && briefs[0] in briefs;
      FramesCons(briefs[0], briefs[1..], ser);
      TornRecord(ser(briefs[0]), Frames(briefs[1..], ser), parse, extra);
    }
  }

  lemma TakeInto(a: seq<Byte>, b: seq<Byte>, n: nat)
    requires n <= |b|
    ensures (a + b)[..|a| + n] == a + b[..n]
  {
  }

  /** A length with the top bit set is negative, and nothing is loaded behind it. */
  lemma NegativeSize(bytes: seq<Byte>, parse: Parser)
    requires |bytes| >= 4 && bytes[3] >= 0x80
    ensures ParseBriefs(bytes, parse) == None
  {
    SizeDigits(0, bytes[..4]);
  }

  lemma ParseNothing(parse: Parser)
    ensures ParseBriefs([], parse) == Some([])
  {
  }

  lemma TornRecord(record: seq<Byte>, tail: seq<Byte>, parse: Parser, extra: nat)
    requires 0 < |record| <= BUFF_SIZE && extra < 4 + |record|
    ensures ParseBriefs((Frame(record) + tail)[..extra], parse) == if extra < 4 then Some([]) else None
  {
    if extra >= 4 {
      var bytes := (Frame(record) + tail)[..extra];
      assert bytes[..4] == EncodeSize(|record|);
      SizeRoundTrip(|record|);
    }
  }

  /** Every truncation is of that form. */
  lemma {:induction false} TruncationPoint(briefs: seq<Brief>, ser: Serializer, n: nat) returns (k: nat, extra: nat)
    requires Writable(briefs, ser) && n <= |Frames(briefs, ser)|
    ensures k <= |briefs| && n == |Frames(briefs[..k], ser)| + extra && (k == |briefs| ==> extra == 0)
    ensures k < |briefs| ==> extra < 4 + |ser(briefs[k])|
  {
    if briefs == [] || n < |Frame(ser(briefs[0]))| {
      k, extra := 0, n;
    } else {
      k, extra := TruncationPoint(briefs[1..], ser, n - |Frame(ser(briefs[0]))|);
      k := k + 1;
      assert briefs[..k][1..] == briefs[1..][..k - 1];
    }
  }

  /** Appending a brief appends its frame. */
  lemma FramesAppend(briefs: seq<Brief>, b: Brief, ser: Serializer)
    requires Writable(briefs, ser) && 0 < |ser(b)| < 0x8000_0000
    ensures Writable(briefs + [b], ser)
    ensures Frames(briefs + [b], ser) == Frames(briefs, ser) + Frame(ser(b))
  {
    FramesCons(b, [], ser);
    FramesNil(ser);
    assert [b] + [] == [b] && Frame(ser(b)) + [] == Frame(ser(b));
    FramesConcat(briefs, [b], ser);
  }

  /** The shortest torn length: the file of one one-byte record, cut behind three bytes, loads as empty. */
  lemma TornLength(parse: Parser)
    ensures Frame([7]) == [1, 0, 0, 0, 7] && ParseBriefs(Frame([7])[..3], parse) == Some([])
  {
  }

  // ---- briefs that serialise to nothing --------------------------------------------------

  /** The file of `briefs`, but for the length of an empty record somewhere behind the first k of them. */
  ghost predicate SpoiledAt(file: seq<Byte>, briefs: seq<Brief>, ser: Serializer, k: nat, tail: seq<Byte>) {
    k <= |briefs| && Writable(briefs[..k], ser) && file == Frames(briefs[..k], ser) + (EncodeSize(0) + tail)
  }

  ghost predicate Spoiled(file: seq<Byte>, briefs: seq<Brief>, ser: Serializer) {
    exists k: nat, tail: seq<Byte> :: SpoiledAt(file, briefs, ser, k, tail)
  }

  lemma SpoiledNow(briefs: seq<Brief>, ser: Serializer)
    requires Writable(briefs, ser)
    ensures Spoiled(Frames(briefs, ser) + EncodeSize(0), briefs, ser)
  {
    assert briefs[..|briefs|] == briefs && EncodeSize(0) + [] == EncodeSize(0);
    assert SpoiledAt(Frames(briefs, ser) + EncodeSize(0), briefs, ser, |briefs|, []);
  }

  lemma SpoiledStays(file: seq<Byte>, briefs: seq<Brief>, ser: Serializer, more: seq<Byte>, next: seq<Brief>)
    requires Spoiled(file, briefs, ser)
    ensures Spoiled(file + more, briefs + next, ser)
  {
    var k: nat, tail: seq<Byte> :| SpoiledAt(file, briefs, ser, k, tail);
    assert (briefs + next)[..k] == briefs[..k];
    assert file + more == Frames(briefs[..k], ser) + (EncodeSize(0) + (tail + more));
    assert SpoiledAt(file + more, briefs + next, ser, k, tail + more);
  }

  lemma EmptyRecordFails(tail: seq<Byte>, parse: Parser)
    ensures ParseBriefs(EncodeSize(0) + tail, parse) == None
  {
    SizeRoundTrip(0);
    assert (EncodeSize(0) + tail)[..4] == EncodeSize(0);
  }

  /** Such a file does not load. */
  lemma SpoiledFails(file: seq<Byte>, briefs: seq<Brief>, ser: Serializer, parse: Parser)
    requires Spoiled(file, briefs, ser) && Inverse(briefs, ser, parse)
    ensures ParseBriefs(file, parse) == None
  {
    var k: nat, tail: seq<Byte> :| SpoiledAt(file, briefs, ser, k, tail);
    assert forall b | b in briefs[..k] :: b in briefs;
    EmptyRecordFails(tail, parse);
    ParseFrames(briefs[..k], EncodeSize(0) + tail, ser, parse);
  }

  /** A parser for the briefs exists exactly when no two of them serialise alike. */
  lemma InverseExists(briefs: seq<Brief>, ser: Serializer)
    ensures (exists parse: Parser :: Inverse(briefs, ser, parse))
      <==> forall a, b | a in briefs && b in briefs && ser(a) == ser(b) :: a == b
  {
    if forall a, b | a in briefs && b in briefs && ser(a) == ser(b) :: a == b {
      ghost var parse: Parser := (bytes: seq<Byte>) => Recovered(briefs, ser, bytes);
      assert Inverse(briefs, ser, parse);
    }
    if parse: Parser :| Inverse(briefs, ser, parse) {
      forall a, b | a in briefs && b in briefs && ser(a) == ser(b) ensures a == b {
        assert Some(a) == parse(ser(a)) == parse(ser(b)) == Some(b);
      }
    }
  }

  ghost function Recovered(briefs: seq<Brief>, ser: Serializer, bytes: seq<Byte>): Option<Brief> {
    if exists b | b in briefs :: ser(b) == bytes then
      var b :| b in briefs && ser(b) == bytes;
      Some(b)
    else None
  }
}
