/** The A2S_INFO query of Valve's "Server queries" protocol as `core/a2s.py`
    implements it: the fixed request datagram and the left-to-right decoder
    of the response. The UDP exchange itself is not modelled; the decoder
    takes the received datagram as its input, and UTF-8 decoding is a
    parameter (`Utf8`), a partial function from bytes to text. */
module A2s {
  import opened Wrappers

  type byte = x: int | 0 <= x < 256

  /** Python's `bytes.decode("utf-8")`: `None` where it would raise. */
  type Utf8 = seq<byte> -> Option<string>

  /** The request datagram: the four-byte 0xFF "simple response" header,
      the ASCII text "TSource Engine Query" and a terminating NUL. */
  function InfoRequest(): (r: seq<byte>)
    ensures |r| == 25
    ensures r[..4] == [0xFF, 0xFF, 0xFF, 0xFF]
    ensures forall i :: 4 <= i < 24 ==> r[i] == "TSource Engine Query"[i - 4] as int
    ensures r[24] == 0
  {
    [0xFF, 0xFF, 0xFF, 0xFF,
     0x54, 0x53, 0x6F, 0x75, 0x72, 0x63,
     0x65, 0x20, 0x45, 0x6E, 0x67, 0x69,
     0x6E, 0x65, 0x20, 0x51, 0x75, 0x65, 0x72, 0x79, 0x00]
  }

  /** `serverType` and `environment`: the record's default is the text "",
      while the decoder stores the one raw byte read by struct's `c`
      format. The two never compare equal. */
  datatype Code = Text(s: string) | Raw(b: byte)

  /** The `A2S_INFO` dataclass; equality is field by field. */
  datatype Info = Info(
    protocolVersion: int,
    serverName: string,
    mapName: string,
    folder: string,
    game: string,
    steamGameId: int,
    playerCount: int,
    maxPlayers: int,
    botCount: int,
    serverType: Code,
    environment: Code,
    isPrivate: bool,
    vacEnabled: bool,
    version: string,
    edf: int)

  /** `A2S_INFO()` with every field at its declared default. */
  function DefaultInfo(): Info {
    Info(0, "Server name", "Unknown", "", "Chivalry 2", 0, 0, 0, 0,
         Text(""), Text(""), false, false, "", 0)
  }

  /** The dataclass-generated `==`, written out field by field. */
  function SameInfo(a: Info, b: Info): (r: bool)
    ensures r <==> a == b
  {
    && a.protocolVersion == b.protocolVersion
    && a.serverName == b.serverName
    && a.mapName == b.mapName
    && a.folder == b.folder
    && a.game == b.game
    && a.steamGameId == b.steamGameId
    && a.playerCount == b.playerCount
    && a.maxPlayers == b.maxPlayers
    && a.botCount == b.botCount
    && a.serverType == b.serverType
    && a.environment == b.environment
    && a.isPrivate == b.isPrivate
    && a.vacEnabled == b.vacEnabled
    && a.version == b.version
    && a.edf == b.edf
  }

  /** Why decoding raised. */
  datatype DecodeError =
    | ShortBuffer(offset: nat, needed: nat)  // struct.unpack_from ran off the end
    | UnterminatedString(offset: nat)        // __extractString indexed past the end
    | InvalidUtf8(offset: nat)               // bytes.decode rejected the string

  // ---------------------------------------------------------------------
  // Field readers
  // ---------------------------------------------------------------------

  /** struct's `b`: one byte as a two's-complement signed value. */
  function SignedByte(b: byte): (r: int)
    ensures -128 <= r < 128
    ensures r == b || r == b - 256
  {
    if b < 128 then b else b - 256
  }

  /** struct's `!h`: two bytes, most significant first, as a signed value. */
  function Int16BE(hi: byte, lo: byte): (r: int)
    ensures -32768 <= r < 32768
    ensures r == hi * 256 + lo || r == hi * 256 + lo - 65536
  {
    var u := hi * 256 + lo;
    if u < 32768 then u else u - 65536
  }

  /** The position of the first NUL at or after `i`, scanning as the
      `while bts[i] != 0` loop does; `None` where that loop indexes past
      the end of the buffer. */
  function FindNul(bts: seq<byte>, i: nat): (r: Option<nat>)
    ensures r.Some? ==> i <= r.value < |bts| && bts[r.value] == 0
    decreases |bts| - i
  {
    if i >= |bts| then None
    else if bts[i] == 0 then Some(i)
    else FindNul(bts, i + 1)
  }

  /** `FindNul` finds the first NUL, and finds none exactly when there is
      none from `i` on. */
  lemma {:induction false} FindNulFirst(bts: seq<byte>, i: nat)
    ensures FindNul(bts, i).Some? ==> forall k :: i <= k < FindNul(bts, i).value ==> bts[k] != 0
    ensures FindNul(bts, i).None? <==> forall k :: i <= k < |bts| ==> bts[k] != 0
    decreases |bts| - i
  {
    if i < |bts| && bts[i] != 0 {
      FindNulFirst(bts, i + 1);
    }
  }

  /** A NUL at `j` with none before it from `i` is the one `FindNul` finds. */
  lemma {:induction false} FindNulAt(bts: seq<byte>, i: nat, j: nat)
    requires i <= j < |bts| && bts[j] == 0
    requires forall k :: i <= k < j ==> bts[k] != 0
    ensures FindNul(bts, i) == Some(j)
    decreases j - i
  {
    if i < j {
      FindNulAt(bts, i + 1, j);
    }
  }

  /** The outcome of `__extractString`: the text and the offset one past
      its NUL, or the error it raised. */
  datatype Extraction = Got(text: string, next: nat) | Failed(error: DecodeError)

  /** `__extractString`: the text of the bytes from `offset` up to the
      first NUL, and the offset one past that NUL. A missing NUL is an
      error, never a truncated string. */
  function ExtractString(bts: seq<byte>, offset: nat, dec: Utf8): (r: Extraction)
    ensures r.Got? ==> offset < r.next <= |bts| && bts[r.next - 1] == 0
    ensures r.Failed? ==> r.error == UnterminatedString(offset) || r.error == InvalidUtf8(offset)
  {
    match FindNul(bts, offset)
    case None => Failed(UnterminatedString(offset))
    case Some(j) =>
      match dec(bts[offset..j])
      case None => Failed(InvalidUtf8(offset))
      case Some(s) => Got(s, j + 1)
  }

  /** An extracted string is the decoding of the NUL-free bytes before the
      terminator. */
  lemma ExtractStringGot(bts: seq<byte>, offset: nat, dec: Utf8)
    requires ExtractString(bts, offset, dec).Got?
    ensures var r := ExtractString(bts, offset, dec);
            && 0 !in bts[offset..r.next - 1]
            && dec(bts[offset..r.next - 1]) == Some(r.text)
  {
    FindNulFirst(bts, offset);
  }

  /** The error `__extractString` ends in when no NUL follows `offset`:
      the source indexes one past the end before testing the bound. */
  lemma ExtractStringUnterminated(bts: seq<byte>, offset: nat, dec: Utf8)
    ensures ExtractString(bts, offset, dec) == Failed(UnterminatedString(offset))
            <==> forall k :: offset <= k < |bts| ==> bts[k] != 0
  {
    FindNulFirst(bts, offset);
  }

  // ---------------------------------------------------------------------
  // Decoding the response
  // ---------------------------------------------------------------------

  /** The outcome of several extractions in a row. */
  datatype Extractions = GotAll(texts: seq<string>, next: nat) | FailedAll(error: DecodeError)

  /** `n` strings read back to back: each starts at the offset the
      previous extraction returned. */
  function ExtractStrings(bts: seq<byte>, offset: nat, n: nat, dec: Utf8): (r: Extractions)
    ensures r.GotAll? ==> |r.texts| == n && offset + n <= r.next
    ensures r.GotAll? && n > 0 ==> r.next <= |bts|
    decreases n
  {
    if n == 0 then GotAll([], offset)
    else
      match ExtractString(bts, offset, dec)
      case Failed(e) => FailedAll(e)
      case Got(s, j) =>
        match ExtractStrings(bts, j, n - 1, dec)
        case FailedAll(e) => FailedAll(e)
        case GotAll(rest, k) => GotAll([s] + rest, k)
  }

  /** The 9-byte block `!hBBBccbb` read at `p`. */
  datatype Fixed = Fixed(steamGameId: int, playerCount: int, maxPlayers: int, botCount: int,
                         serverType: Code, environment: Code, visibility: int, vac: int)

  function ReadFixed(buf: seq<byte>, p: nat): Fixed
    requires p + 9 <= |buf|
  {
    Fixed(Int16BE(buf[p], buf[p + 1]), buf[p + 2], buf[p + 3], buf[p + 4],
          Raw(buf[p + 5]), Raw(buf[p + 6]), SignedByte(buf[p + 7]), SignedByte(buf[p + 8]))
  }

  /** The record assembled from the pieces read. */
  function Assemble(version: byte, strs: seq<string>, f: Fixed, ver: string, edf: byte): Info
    requires |strs| == 4
  {
    Info(SignedByte(version), strs[0], strs[1], strs[2], strs[3], f.steamGameId, f.playerCount,
         f.maxPlayers, f.botCount, f.serverType, f.environment,
         f.visibility == 1, f.vac == 1, ver, edf)
  }

  /** Where the decoder finds each part of a response: the four leading
      strings, the offset of the fixed block, the version string and the
      offset of the EDF byte. */
  datatype Layout = Layout(strs: seq<string>, fixedAt: nat, version: string, edfAt: nat)

  /** The cursor walk of `getInfo`: a short buffer at any fixed read, or a
      failed string extraction, is an error. */
  function Scan(buf: seq<byte>, dec: Utf8): (r: Result<Layout, DecodeError>)
    ensures r.Ok? ==> |buf| >= 6 && |r.value.strs| == 4
    ensures r.Ok? ==> 10 <= r.value.fixedAt && r.value.fixedAt + 10 <= r.value.edfAt < |buf|
  {
    if |buf| < 6 then Err(ShortBuffer(0, 6))
    else ScanFixed(buf, dec, ExtractStrings(buf, 6, 4, dec))
  }

  /** After the four leading strings: the fixed block, then the version. */
  function ScanFixed(buf: seq<byte>, dec: Utf8, strs: Extractions): (r: Result<Layout, DecodeError>)
    requires strs.GotAll? ==> |strs.texts| == 4 && 10 <= strs.next
    ensures r.Ok? ==> |r.value.strs| == 4
    ensures r.Ok? ==> 10 <= r.value.fixedAt && r.value.fixedAt + 10 <= r.value.edfAt < |buf|
  {
    match strs
    case FailedAll(e) => Err(e)
    case GotAll(ss, p) =>
      if p + 9 > |buf| then Err(ShortBuffer(p, 9))
      else ScanEdf(buf, ss, p, ExtractString(buf, p + 9, dec))
  }

  /** After the version string: the EDF byte. */
  function ScanEdf(buf: seq<byte>, strs: seq<string>, p: nat, ver: Extraction): (r: Result<Layout, DecodeError>)
    requires ver.Got? ==> p + 10 <= ver.next
    ensures r.Ok? ==> ver.Got? && r == Ok(Layout(strs, p, ver.text, ver.next)) && ver.next < |buf|
  {
    match ver
    case Failed(e) => Err(e)
    case Got(v, q) =>
      if q + 1 > |buf| then Err(ShortBuffer(q, 1))
      else Ok(Layout(strs, p, v, q))
  }

  /** A decoded record and the offset one past the last byte read. */
  datatype Parsed = Parsed(info: Info, end: nat)

  /** The decode part of `getInfo`, also returning the offset one past the
      last byte it read. Bytes 0-4 (header and type) are skipped without
      being checked; anything after the EDF byte is ignored. */
  function Parse(buf: seq<byte>, dec: Utf8): (r: Result<Parsed, DecodeError>)
    ensures r.Ok? ==> 21 <= r.value.end <= |buf|
  {
    match Scan(buf, dec)
    case Err(e) => Err(e)
    case Ok(l) =>
      Ok(Parsed(Assemble(buf[5], l.strs, ReadFixed(buf, l.fixedAt), l.version, buf[l.edfAt]), l.edfAt + 1))
  }

  /** Every field the wire format can carry is in the range of its reader. */
  predicate InRange(info: Info) {
    && -128 <= info.protocolVersion < 128
    && -32768 <= info.steamGameId < 32768
    && 0 <= info.playerCount < 256
    && 0 <= info.maxPlayers < 256
    && 0 <= info.botCount < 256
    && info.serverType.Raw?
    && info.environment.Raw?
    && 0 <= info.edf < 256
  }

  /** The record `getInfo` returns for a response datagram. */
  function Decode(buf: seq<byte>, dec: Utf8): (r: Result<Info, DecodeError>)
    ensures |buf| < 6 ==> r == Err(ShortBuffer(0, 6))
    ensures r.Ok? ==> |buf| >= 21 && InRange(r.value)
    ensures r.Ok? ==> r.value.protocolVersion == SignedByte(buf[5])
  {
    match Parse(buf, dec)
    case Err(e) => Err(e)
    case Ok(p) => Ok(p.info)
  }

  /** A decoded record never equals the default one: its type codes are
      raw bytes, the default's are text. So the first successful query
      always counts as a change. */
  lemma DecodedIsNeverDefault(buf: seq<byte>, dec: Utf8)
    requires Decode(buf, dec).Ok?
    ensures Decode(buf, dec).value != DefaultInfo()
  {
  }

  // ---------------------------------------------------------------------
  // Encoding (the server side of the exchange), for the round trip
  // ---------------------------------------------------------------------

  /** The byte struct's `b` writes for a value in range. */
  function ByteOf(v: int): byte {
    v % 256
  }

  /** The two bytes struct's `!h` writes for a value in range. */
  function Int16Bytes(v: int): seq<byte> {
    var u := v % 65536;
    [u / 256, u % 256]
  }

  function FlagByte(b: bool): byte {
    if b then 1 else 0
  }

  function CodeByte(c: Code): byte {
    match c
    case Raw(b) => b
    case Text(_) => 0
  }

  /** The fixed block laid out as the decoder reads it. */
  function FixedBytes(info: Info): seq<byte> {
    Int16Bytes(info.steamGameId)
    + [ByteOf(info.playerCount), ByteOf(info.maxPlayers), ByteOf(info.botCount),
       CodeByte(info.serverType), CodeByte(info.environment),
       FlagByte(info.isPrivate), FlagByte(info.vacEnabled)]
  }

  /** Strings written back to back, each followed by a NUL. */
  function EncodeStrings(ss: seq<string>, enc: string -> seq<byte>): seq<byte> {
    if |ss| == 0 then [] else enc(ss[0]) + [0] + EncodeStrings(ss[1..], enc)
  }

  /** An A2S_INFO response for `info`, with text encoded by `enc`. */
  function Encode(info: Info, enc: string -> seq<byte>): seq<byte> {
    [0xFF, 0xFF, 0xFF, 0xFF, 0x49, ByteOf(info.protocolVersion)]
    + EncodeStrings([info.serverName, info.mapName, info.folder, info.game], enc)
    + FixedBytes(info)
    + enc(info.version) + [0]
    + [ByteOf(info.edf)]
  }

  /** `enc` writes `s` without a NUL and `dec` reads it back. */
  predicate Faithful(enc: string -> seq<byte>, dec: Utf8, s: string) {
    0 !in enc(s) && dec(enc(s)) == Some(s)
  }

  predicate FaithfulFor(enc: string -> seq<byte>, dec: Utf8, info: Info) {
    && Faithful(enc, dec, info.serverName)
    && Faithful(enc, dec, info.mapName)
    && Faithful(enc, dec, info.folder)
    && Faithful(enc, dec, info.game)
    && Faithful(enc, dec, info.version)
  }

  lemma SignedByteOf(v: int)
    requires -128 <= v < 128
    ensures SignedByte(ByteOf(v)) == v
  {
  }

  lemma Int16RoundTrip(v: int)
    requires -32768 <= v < 32768
    ensures Int16BE(Int16Bytes(v)[0], Int16Bytes(v)[1]) == v
  {
    var u := v % 65536;
    assert u / 256 * 256 + u % 256 == u;
  }

  /** A NUL-free encoded string followed by a NUL is extracted whole. */
  lemma ExtractAt(bts: seq<byte>, i: nat, e: seq<byte>, s: string, dec: Utf8)
    requires i + |e| < |bts| && bts[i..i + |e|] == e && bts[i + |e|] == 0
    requires 0 !in e && dec(e) == Some(s)
    ensures ExtractString(bts, i, dec) == Got(s, i + |e| + 1)
  {
    forall k | i <= k < i + |e| ensures bts[k] != 0 {
      assert bts[k] == e[k - i];
    }
    FindNulAt(bts, i, i + |e|);
  }

  /** One step of back-to-back extraction. */
  lemma ExtractStringsStep(bts: seq<byte>, i: nat, n: nat, dec: Utf8, s: string, j: nat, rest: seq<string>, k: nat)
    requires n > 0 && ExtractString(bts, i, dec) == Got(s, j)
    requires ExtractStrings(bts, j, n - 1, dec) == GotAll(rest, k)
    ensures ExtractStrings(bts, i, n, dec) == GotAll([s] + rest, k)
  {
  }

  /** A slice holding `x + y` holds `x` and then `y`. */
  lemma SliceSplit(bts: seq<byte>, i: nat, x: seq<byte>, y: seq<byte>)
    requires i + |x| + |y| <= |bts| && bts[i..i + |x| + |y|] == x + y
    ensures bts[i..i + |x|] == x && bts[i + |x|..i + |x| + |y|] == y
  {
    assert bts[i..i + |x|] == bts[i..i + |x| + |y|][..|x|];
    assert bts[i + |x|..i + |x| + |y|] == bts[i..i + |x| + |y|][|x|..];
  }

  /** The first of several strings written back to back is extracted
      whole, and the rest follow its NUL. */
  lemma ExtractFirst(bts: seq<byte>, i: nat, ss: seq<string>, enc: string -> seq<byte>, dec: Utf8)
    requires |ss| > 0 && Faithful(enc, dec, ss[0])
    requires i + |EncodeStrings(ss, enc)| <= |bts|
    requires bts[i..i + |EncodeStrings(ss, enc)|] == EncodeStrings(ss, enc)
    ensures var j := i + |enc(ss[0])| + 1;
            && ExtractString(bts, i, dec) == Got(ss[0], j)
            && j + |EncodeStrings(ss[1..], enc)| == i + |EncodeStrings(ss, enc)|
            && bts[j..j + |EncodeStrings(ss[1..], enc)|] == EncodeStrings(ss[1..], enc)
  {
    var e := enc(ss[0]);
    var tail := EncodeStrings(ss[1..], enc);
    assert EncodeStrings(ss, enc) == (e + [0]) + tail;
    SliceSplit(bts, i, e + [0], tail);
    SliceSplit(bts, i, e, [0]);
    assert bts[i + |e|] == 0 by { assert bts[i + |e|..i + |e| + 1] == [0]; }
    ExtractAt(bts, i, e, ss[0], dec);
  }

  /** Strings written back to back are read back in order, ending just
      past the last NUL. */
  lemma {:induction false} ExtractStringsAt(bts: seq<byte>, i: nat, ss: seq<string>,
                                            enc: string -> seq<byte>, dec: Utf8)
    requires forall k :: 0 <= k < |ss| ==> Faithful(enc, dec, ss[k])
    requires i + |EncodeStrings(ss, enc)| <= |bts|
    requires bts[i..i + |EncodeStrings(ss, enc)|] == EncodeStrings(ss, enc)
    ensures ExtractStrings(bts, i, |ss|, dec) == GotAll(ss, i + |EncodeStrings(ss, enc)|)
    decreases |ss|
  {
    if |ss| > 0 {
      var j := i + |enc(ss[0])| + 1;
      var k := i + |EncodeStrings(ss, enc)|;
      assert ExtractString(bts, i, dec) == Got(ss[0], j)
          && bts[j..j + |EncodeStrings(ss[1..], enc)|] == EncodeStrings(ss[1..], enc)
          && j + |EncodeStrings(ss[1..], enc)| == k by {
        ExtractFirst(bts, i, ss, enc, dec);
      }
      assert forall k :: 0 <= k < |ss[1..]| ==> Faithful(enc, dec, ss[1..][k]) by {
        forall k | 0 <= k < |ss[1..]| ensures Faithful(enc, dec, ss[1..][k]) {
          assert ss[1..][k] == ss[k + 1];
        }
      }
      ExtractStringsAt(bts, j, ss[1..], enc, dec);
      ExtractStringsStep(bts, i, |ss|, dec, ss[0], j, ss[1..], k);
      assert [ss[0]] + ss[1..] == ss;
    }
  }

  lemma ScanHead(b: seq<byte>, dec: Utf8, strs: Extractions)
    requires |b| >= 6 && ExtractStrings(b, 6, 4, dec) == strs
    ensures Scan(b, dec) == ScanFixed(b, dec, strs)
  {
  }

  lemma ScanFixedHead(b: seq<byte>, dec: Utf8, ss: seq<string>, p: nat, ver: Extraction)
    requires |ss| == 4 && 10 <= p && p + 9 <= |b|
    requires ExtractString(b, p + 9, dec) == ver
    ensures ScanFixed(b, dec, GotAll(ss, p)) == ScanEdf(b, ss, p, ver)
  {
  }

  /** The successful path through `Scan`: both extractions succeed and the
      EDF byte is there. */
  lemma ScanOk(b: seq<byte>, dec: Utf8, ss: seq<string>, p: nat, v: string, q: nat)
    requires |b| >= 6 && ExtractStrings(b, 6, 4, dec) == GotAll(ss, p) && p + 9 <= |b|
    requires ExtractString(b, p + 9, dec) == Got(v, q) && q < |b|
    ensures Scan(b, dec) == Ok(Layout(ss, p, v, q))
  {
    ScanHead(b, dec, GotAll(ss, p));
    ScanFixedHead(b, dec, ss, p, Got(v, q));
  }

  /** A successful scan went through every step of the cursor walk. */
  lemma ScanOkParts(b: seq<byte>, dec: Utf8)
    requires Scan(b, dec).Ok?
    ensures var l := Scan(b, dec).value;
            && ExtractStrings(b, 6, 4, dec) == GotAll(l.strs, l.fixedAt)
            && ExtractString(b, l.fixedAt + 9, dec) == Got(l.version, l.edfAt)
  {
  }

  /** The fixed block as the decoder should read it back for `info`. */
  function FixedOf(info: Info): Fixed {
    Fixed(info.steamGameId, info.playerCount, info.maxPlayers, info.botCount,
          info.serverType, info.environment, FlagByte(info.isPrivate), FlagByte(info.vacEnabled))
  }

  /** The fixed block written for `info` reads back as `info`'s fields. */
  lemma ReadFixedBytes(info: Info, b: seq<byte>, p: nat)
    requires InRange(info) && p + 9 <= |b| && b[p..p + 9] == FixedBytes(info)
    ensures ReadFixed(b, p) == FixedOf(info)
  {
    var f := FixedBytes(info);
    assert forall k :: 0 <= k < 9 ==> b[p + k] == f[k] by {
      forall k | 0 <= k < 9 ensures b[p + k] == f[k] {
        assert b[p..p + 9][k] == b[p + k];
      }
    }
    Int16RoundTrip(info.steamGameId);
  }

  /** Assembling the pieces of an encoded record gives the record back. */
  lemma AssembleOf(info: Info)
    requires InRange(info)
    ensures Assemble(ByteOf(info.protocolVersion), [info.serverName, info.mapName, info.folder, info.game],
                     FixedOf(info), info.version, ByteOf(info.edf)) == info
  {
    SignedByteOf(info.protocolVersion);
  }

  /** `Parse` once `Scan` has succeeded. */
  lemma ParseOfScan(b: seq<byte>, dec: Utf8, l: Layout)
    requires Scan(b, dec) == Ok(l)
    ensures Parse(b, dec) == Ok(Parsed(Assemble(b[5], l.strs, ReadFixed(b, l.fixedAt), l.version, b[l.edfAt]), l.edfAt + 1))
  {
  }

  /** `b` holds the parts of `info`'s encoding at the offsets the decoder
      reads them from. */
  ghost predicate LaidOut(b: seq<byte>, info: Info, enc: string -> seq<byte>) {
    var es := EncodeStrings([info.serverName, info.mapName, info.folder, info.game], enc);
    var ev := enc(info.version);
    var p := 6 + |es|;
    && |b| == p + 11 + |ev| && b[5] == ByteOf(info.protocolVersion)
    && b[6..p] == es && b[p..p + 9] == FixedBytes(info)
    && b[p + 9..p + 9 + |ev|] == ev && b[p + 9 + |ev|] == 0
    && b[p + 10 + |ev|] == ByteOf(info.edf)
  }

  /** An encoded record is laid out as the decoder expects. */
  lemma EncodeLaidOut(info: Info, enc: string -> seq<byte>)
    ensures LaidOut(Encode(info, enc), info, enc)
  {
    var h: seq<byte> := [0xFF, 0xFF, 0xFF, 0xFF, 0x49, ByteOf(info.protocolVersion)];
    var es := EncodeStrings([info.serverName, info.mapName, info.folder, info.game], enc);
    FrameParts(h, es, FixedBytes(info), enc(info.version), ByteOf(info.edf));
  }

  /** The offsets of the parts of a response frame. */
  lemma FrameParts(h: seq<byte>, es: seq<byte>, f: seq<byte>, ev: seq<byte>, e: byte)
    requires |h| == 6 && |f| == 9
    ensures var b := h + es + f + ev + [0] + [e];
            var p := 6 + |es|;
            && |b| == p + 11 + |ev| && b[5] == h[5]
            && b[6..p] == es && b[p..p + 9] == f
            && b[p + 9..p + 9 + |ev|] == ev && b[p + 9 + |ev|] == 0
            && b[p + 10 + |ev|] == e
  {
    var b := h + es + f + ev + [0] + [e];
    var p := 6 + |es|;
    var tail := f + ev + [0] + [e];
    assert b == h + es + tail;
    assert b[6..|b|] == es + tail;
    assert b[6..p] == es && b[p..|b|] == tail by { SliceSplit(b, 6, es, tail); }
    assert b[p..p + 9] == f && b[p + 9..|b|] == ev + [0] + [e] by {
      SliceSplit(b, p, f, ev + [0] + [e]);
    }
    assert b[p + 9..p + 9 + |ev|] == ev by { SliceSplit(b, p + 9, ev, [0] + [e]); }
  }

  lemma LeadingFaithful(info: Info, enc: string -> seq<byte>, dec: Utf8)
    requires FaithfulFor(enc, dec, info)
    ensures var ss := [info.serverName, info.mapName, info.folder, info.game];
            forall k :: 0 <= k < |ss| ==> Faithful(enc, dec, ss[k])
  {
  }

  /** A buffer laid out as the encoder writes it scans to that layout. */
  lemma ScanLaidOut(b: seq<byte>, ss: seq<string>, ev: seq<byte>, ver: string,
                    enc: string -> seq<byte>, dec: Utf8)
    requires |ss| == 4 && forall k :: 0 <= k < |ss| ==> Faithful(enc, dec, ss[k])
    requires 0 !in ev && dec(ev) == Some(ver)
    requires var p := 6 + |EncodeStrings(ss, enc)|;
             && |b| == p + 11 + |ev|
             && b[6..p] == EncodeStrings(ss, enc)
             && b[p + 9..p + 9 + |ev|] == ev && b[p + 9 + |ev|] == 0
    ensures var p := 6 + |EncodeStrings(ss, enc)|;
            Scan(b, dec) == Ok(Layout(ss, p, ver, p + 10 + |ev|))
  {
    var p := 6 + |EncodeStrings(ss, enc)|;
    ExtractStringsAt(b, 6, ss, enc, dec);
    VersionAt(b, p, ev, ver, dec);
    ScanOk(b, dec, ss, p, ver, p + 10 + |ev|);
  }

  /** The version string of a laid-out buffer is extracted whole. */
  lemma VersionAt(b: seq<byte>, p: nat, ev: seq<byte>, ver: string, dec: Utf8)
    requires 0 !in ev && dec(ev) == Some(ver)
    requires |b| == p + 11 + |ev| && b[p + 9..p + 9 + |ev|] == ev && b[p + 9 + |ev|] == 0
    ensures ExtractString(b, p + 9, dec) == Got(ver, p + 10 + |ev|)
  {
    ExtractAt(b, p + 9, ev, ver, dec);
  }

  /** A buffer laid out as `info`'s encoding scans to the layout of its
      parts. */
  lemma ScanEncoded(b: seq<byte>, info: Info, enc: string -> seq<byte>, dec: Utf8)
    requires FaithfulFor(enc, dec, info) && LaidOut(b, info, enc)
    ensures var ss := [info.serverName, info.mapName, info.folder, info.game];
            var p := 6 + |EncodeStrings(ss, enc)|;
            Scan(b, dec) == Ok(Layout(ss, p, info.version, p + 10 + |enc(info.version)|))
  {
    LeadingFaithful(info, enc, dec);
    ScanLaidOut(b, [info.serverName, info.mapName, info.folder, info.game],
                enc(info.version), info.version, enc, dec);
  }

  /** A buffer laid out as `info`'s encoding parses to `info`. */
  lemma ParseLaidOut(b: seq<byte>, info: Info, enc: string -> seq<byte>, dec: Utf8)
    requires InRange(info) && FaithfulFor(enc, dec, info) && LaidOut(b, info, enc)
    ensures Parse(b, dec) == Ok(Parsed(info, |b|))
  {
    ScanEncoded(b, info, enc, dec);
    var p := 6 + |EncodeStrings([info.serverName, info.mapName, info.folder, info.game], enc)|;
    ParseAt(b, info, p, |enc(info.version)|, dec);
  }

  /** A buffer whose parts read back as the parts of `info` parses to it. */
  lemma ParseAt(b: seq<byte>, info: Info, p: nat, n: nat, dec: Utf8)
    requires InRange(info) && |b| == p + 11 + n
    requires Scan(b, dec) == Ok(Layout([info.serverName, info.mapName, info.folder, info.game],
                                       p, info.version, p + 10 + n))
    requires b[p..p + 9] == FixedBytes(info)
    requires b[5] == ByteOf(info.protocolVersion) && b[p + 10 + n] == ByteOf(info.edf)
    ensures Parse(b, dec) == Ok(Parsed(info, |b|))
  {
    ReadFixedBytes(info, b, p);
    ParseOfScan(b, dec, Scan(b, dec).value);
    AssembleOf(info);
  }

  /** Decoding a response that encodes `info` gives back `info` and
      consumes the whole datagram. */
  lemma ParseEncode(info: Info, enc: string -> seq<byte>, dec: Utf8)
    requires InRange(info) && FaithfulFor(enc, dec, info)
    ensures Parse(Encode(info, enc), dec) == Ok(Parsed(info, |Encode(info, enc)|))
  {
    EncodeLaidOut(info, enc);
    ParseLaidOut(Encode(info, enc), info, enc, dec);
  }

  /** Round trip: decoding an encoded record reproduces every field. */
  lemma DecodeEncode(info: Info, enc: string -> seq<byte>, dec: Utf8)
    requires InRange(info) && FaithfulFor(enc, dec, info)
    ensures Decode(Encode(info, enc), dec) == Ok(info)
  {
    ParseEncode(info, enc, dec);
  }

  // ---------------------------------------------------------------------
  // What the decoder depends on
  // ---------------------------------------------------------------------

  /** Two buffers that agree on `[lo, hi)` and both reach `hi`. */
  ghost predicate Agree(p: seq<byte>, q: seq<byte>, lo: nat, hi: nat) {
    hi <= |p| && hi <= |q| && forall k :: lo <= k < hi ==> p[k] == q[k]
  }

  lemma AgreeWithin(p: seq<byte>, q: seq<byte>, lo: nat, hi: nat, lo2: nat, hi2: nat)
    requires Agree(p, q, lo, hi) && lo <= lo2 && hi2 <= hi
    ensures Agree(p, q, lo2, hi2)
  {
  }

  /** A string extracted from `p` is extracted the same way from any `q`
      that agrees with `p` over the bytes the extraction read. */
  lemma ExtractAgree(p: seq<byte>, q: seq<byte>, i: nat, dec: Utf8)
    requires ExtractString(p, i, dec).Got?
    requires Agree(p, q, i, ExtractString(p, i, dec).next)
    ensures ExtractString(q, i, dec) == ExtractString(p, i, dec)
  {
    var j := ExtractString(p, i, dec).next - 1;
    assert FindNul(p, i) == Some(j);
    FindNulFirst(p, i);
    FindNulAt(q, i, j);
    assert q[i..j] == p[i..j];
  }

  /** Back-to-back extraction depends only on the bytes it read. */
  lemma {:induction false} ExtractStringsAgree(p: seq<byte>, q: seq<byte>, i: nat, n: nat, dec: Utf8)
    requires ExtractStrings(p, i, n, dec).GotAll?
    requires Agree(p, q, i, ExtractStrings(p, i, n, dec).next)
    ensures ExtractStrings(q, i, n, dec) == ExtractStrings(p, i, n, dec)
    decreases n
  {
    if n > 0 {
      var first := ExtractString(p, i, dec);
      var rest := ExtractStrings(p, first.next, n - 1, dec);
      ExtractAgree(p, q, i, dec);
      ExtractStringsAgree(p, q, first.next, n - 1, dec);
      ExtractStringsStep(p, i, n, dec, first.text, first.next, rest.texts, rest.next);
      ExtractStringsStep(q, i, n, dec, first.text, first.next, rest.texts, rest.next);
    }
  }

  /** The steps of a successful scan of `p` succeed the same way on any
      `q` that agrees with `p` from byte 5 up to the EDF byte. */
  lemma ScanAgree(p: seq<byte>, q: seq<byte>, dec: Utf8, l: Layout)
    requires |l.strs| == 4 && 10 <= l.fixedAt && l.fixedAt + 10 <= l.edfAt
    requires ExtractStrings(p, 6, 4, dec) == GotAll(l.strs, l.fixedAt)
    requires ExtractString(p, l.fixedAt + 9, dec) == Got(l.version, l.edfAt)
    requires Agree(p, q, 5, l.edfAt + 1)
    ensures Scan(q, dec) == Ok(l)
  {
    StringsAgree(p, q, dec, l);
    VersionAgree(p, q, dec, l);
    ScanOk(q, dec, l.strs, l.fixedAt, l.version, l.edfAt);
  }

  /** The four leading strings of a scan of `p` read the same from `q`. */
  lemma StringsAgree(p: seq<byte>, q: seq<byte>, dec: Utf8, l: Layout)
    requires 10 <= l.fixedAt < l.edfAt
    requires ExtractStrings(p, 6, 4, dec) == GotAll(l.strs, l.fixedAt)
    requires Agree(p, q, 5, l.edfAt + 1)
    ensures ExtractStrings(q, 6, 4, dec) == GotAll(l.strs, l.fixedAt)
  {
    AgreeWithin(p, q, 5, l.edfAt + 1, 6, l.fixedAt);
    ExtractStringsAgree(p, q, 6, 4, dec);
  }

  /** The version string of a scan of `p` reads the same from `q`. */
  lemma VersionAgree(p: seq<byte>, q: seq<byte>, dec: Utf8, l: Layout)
    requires ExtractString(p, l.fixedAt + 9, dec) == Got(l.version, l.edfAt)
    requires Agree(p, q, 5, l.edfAt + 1)
    ensures ExtractString(q, l.fixedAt + 9, dec) == Got(l.version, l.edfAt)
  {
    AgreeWithin(p, q, 5, l.edfAt + 1, l.fixedAt + 9, l.edfAt);
    ExtractAgree(p, q, l.fixedAt + 9, dec);
  }

  lemma ReadFixedAgree(p: seq<byte>, q: seq<byte>, i: nat)
    requires Agree(p, q, i, i + 9)
    ensures ReadFixed(q, i) == ReadFixed(p, i)
  {
    assert p[i] == q[i] && p[i + 1] == q[i + 1] && p[i + 2] == q[i + 2];
    assert p[i + 3] == q[i + 3] && p[i + 4] == q[i + 4] && p[i + 5] == q[i + 5];
    assert p[i + 6] == q[i + 6] && p[i + 7] == q[i + 7] && p[i + 8] == q[i + 8];
  }

  /** A successful parse depends only on bytes 5 up to its end offset. */
  lemma ParseAgree(p: seq<byte>, q: seq<byte>, dec: Utf8)
    requires Parse(p, dec).Ok?
    requires Agree(p, q, 5, Parse(p, dec).value.end)
    ensures Parse(q, dec) == Parse(p, dec)
  {
    var l := Scan(p, dec).value;
    ParseOfScan(p, dec, l);
    assert Scan(q, dec) == Ok(l) by {
      ScanOkParts(p, dec);
      ScanAgree(p, q, dec, l);
    }
    ParseOfScan(q, dec, l);
    assert ReadFixed(q, l.fixedAt) == ReadFixed(p, l.fixedAt) by {
      AgreeWithin(p, q, 5, l.edfAt + 1, l.fixedAt, l.fixedAt + 9);
      ReadFixedAgree(p, q, l.fixedAt);
    }
    assert q[l.edfAt] == p[l.edfAt] && q[5] == p[5];
  }

  /** Truncation: every strict prefix of a valid response fails to decode,
      so a short datagram never yields a partial record. */
  lemma TruncatedFails(info: Info, enc: string -> seq<byte>, dec: Utf8, k: nat)
    requires InRange(info) && FaithfulFor(enc, dec, info)
    requires k < |Encode(info, enc)|
    ensures Decode(Encode(info, enc)[..k], dec).Err?
  {
    var b := Encode(info, enc);
    ParseEncode(info, enc, dec);
    if Parse(b[..k], dec).Ok? {
      ParseAgree(b[..k], b, dec);
    }
  }

  /** The header and type bytes are never validated: replacing bytes 0-4
      changes nothing about the outcome. */
  lemma HeaderIgnored(buf: seq<byte>, h: seq<byte>, dec: Utf8)
    requires |h| == 5 && |buf| >= 5
    ensures Decode(h + buf[5..], dec).Ok? <==> Decode(buf, dec).Ok?
    ensures Decode(buf, dec).Ok? ==> Decode(h + buf[5..], dec) == Decode(buf, dec)
  {
    var q := h + buf[5..];
    assert |q| == |buf|;
    assert forall k :: 5 <= k < |buf| ==> q[k] == buf[k];
    if Parse(buf, dec).Ok? {
      ParseAgree(buf, q, dec);
    }
    if Parse(q, dec).Ok? {
      ParseAgree(q, buf, dec);
    }
  }
}
