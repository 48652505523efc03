/**
 Reading the formats back: a zlib and a gzip reader, written from RFC 1950 and RFC 1952, find in header and trailer
 what deflate was told to write and what the input was.
 */
module FormatReaders {
  import opened Basics
  import opened Bits
  import opened Blocks
  import opened Checks
  import opened BitReaders
  import opened DeflateStates
  import opened Flushing
  import opened Headers
  import opened Deflating
  import opened Sessions

  // ----- Trailers -----

  lemma Digits(n: nat)
    ensures n / 0x100 / 0x100 == n / 0x1_0000 && n / 0x1_0000 / 0x100 == n / 0x100_0000
    ensures n == n % 0x100 + 0x100 * (n / 0x100) && n / 0x100 == n / 0x100 % 0x100 + 0x100 * (n / 0x1_0000)
    ensures n / 0x1_0000 == n / 0x1_0000 % 0x100 + 0x100 * (n / 0x100_0000)
    ensures n < 0x1_0000_0000 ==> n / 0x100_0000 < 0x100
  {
  }

  lemma LittleOfFour(a: byte, b: byte, c: byte, d: byte)
    ensures Little([a, b, c, d]) == a as int + 0x100 * b as int + 0x1_0000 * c as int + 0x100_0000 * d as int
  {
    var s0 := [a, b, c, d];
    var s1 := s0[1..];
    var s2 := s1[1..];
    var s3 := s2[1..];
    assert s1 == [b, c, d] && s2 == [c, d] && s3 == [d] && s3[1..] == [];
    assert Little(s3) == d as int;
    assert Little(s2) == c as int + 256 * Little(s3);
    assert Little(s1) == b as int + 256 * Little(s2);
  }

  lemma BigOfFour(a: byte, b: byte, c: byte, d: byte)
    ensures Big([a, b, c, d]) == d as int + 0x100 * c as int + 0x1_0000 * b as int + 0x100_0000 * a as int
  {
    var s0 := [a, b, c, d];
    var s1 := s0[..3];
    var s2 := s1[..2];
    var s3 := s2[..1];
    assert s1 == [a, b, c] && s2 == [a, b] && s3 == [a] && s3[..0] == [];
    assert Big(s3) == a as int;
    assert Big(s2) == 256 * Big(s3) + b as int;
    assert Big(s1) == 256 * Big(s2) + c as int;
  }

  lemma LongReadsBack(n: nat)
    ensures Little(Long(n)) == n % 0x1_0000_0000 && |Long(n)| == 4
  {
    hide Low, Little;
    var m := n % 0x1_0000_0000;
    LittleOfFour(Low(n), Low(n / 0x100), Low(n / 0x1_0000), Low(n / 0x100_0000));
    LowValue(n);
    LowValue(n / 0x100);
    LowValue(n / 0x1_0000);
    LowValue(n / 0x100_0000);
    Digits(n);
    Digits(m);
    HighDigit(n);
  }

  lemma HighDigit(n: nat)
    ensures n % 0x1_0000_0000 ==
            n % 0x100 + 0x100 * (n / 0x100 % 0x100) + 0x1_0000 * (n / 0x1_0000 % 0x100)
            + 0x100_0000 * (n / 0x100_0000 % 0x100)
  {
    Digits(n);
    var top := n / 0x100_0000;
    assert top == top % 0x100 + 0x100 * (top / 0x100);
    assert n / 0x1_0000_0000 == top / 0x100;
  }

  lemma MsbReadsBack(n: nat)
    requires n < 0x1_0000_0000
    ensures Big(ShortMsb(n / 0x1_0000) + ShortMsb(n % 0x1_0000)) == n
  {
    hide Low, Big;
    var hi, lo := n / 0x1_0000, n % 0x1_0000;
    assert hi < 0x1_0000 && n == 0x1_0000 * hi + lo;
    ShortIsTwo(hi);
    ShortIsTwo(lo);
    BigOfFour(Low(hi / 256), Low(hi), Low(lo / 256), Low(lo));
    assert ShortMsb(hi) + ShortMsb(lo) == [Low(hi / 256), Low(hi), Low(lo / 256), Low(lo)];
  }

  lemma CheckOf(wrap: Wrap, input: seq<byte>)
    ensures wrap.Zlib? ==> Checks.Update(wrap, Initial(wrap), input) == Adler(1, input)
    ensures wrap.Gzip? ==> Checks.Update(wrap, Initial(wrap), input) == Crc(0, input) as int
  {
  }

  lemma ZlibTrailer(input: seq<byte>)
    ensures var t := TrailerFor(Zlib, input); |t| == 4 && Big(t) == Adler(1, input)
  {
    hide Adler, Crc, Checks.Update, Big, ShortMsb;
    CheckOf(Zlib, input);
    var check := Checks.Update(Zlib, Initial(Zlib), input);
    MsbReadsBack(check);
    ShortMsbLength(check / 0x1_0000);
    ShortMsbLength(check % 0x1_0000);
  }

  lemma GzipTrailer(input: seq<byte>)
    ensures var t := TrailerFor(Gzip, input);
      |t| == 8 && Little(t[..4]) == Crc(0, input) as int && Little(t[4..]) == |input| % 0x1_0000_0000
  {
    hide Adler, Crc, Checks.Update, Little, Long;
    CheckOf(Gzip, input);
    var check := Checks.Update(Gzip, Initial(Gzip), input);
    LongReadsBack(check);
    LongReadsBack(|input|);
    SmallCheck(check);
    TwoHalves(Long(check), Long(|input|));
  }

  lemma SmallCheck(n: nat)
    requires n < 0x1_0000_0000
    ensures n % 0x1_0000_0000 == n
  {
  }

  /** What a reader finds in the trailer: the Adler-32 of the input, or its CRC-32 and its length. */
  lemma TrailerReads(wrap: Wrap, input: seq<byte>)
    ensures var t := TrailerFor(wrap, input);
      match wrap
      case Raw => t == []
      case Zlib => |t| == 4 && Big(t) == Adler(1, input)
      case Gzip => |t| == 8 && Little(t[..4]) == Crc(0, input) as int && Little(t[4..]) == |input| % 0x1_0000_0000
  {
    hide Adler, Crc, Checks.Update, Little, Big, Long, ShortMsb;
    match wrap {
      case Raw =>
      case Zlib => ZlibTrailer(input);
      case Gzip => GzipTrailer(input);
    }
  }

  lemma TwoHalves(a: seq<byte>, b: seq<byte>)
    ensures (a + b)[..|a|] == a && (a + b)[|a|..] == b
  {
  }

  lemma ShortMsbLength(n: nat)
    ensures |ShortMsb(n)| == 2
  {
  }

  /** Known check values: of no bytes, of the byte 97, and of a byte that takes both sums past 65521. */
  lemma KnownCheckValues()
    ensures Adler(1, []) == 1 && Adler(1, [97]) == 0x0062_0062
    ensures Crc(0, []) == 0 && Crc(0, [97]) == 0xe8b7_be43
    ensures AdlerByte(65520 * 65536 + 65520, 255) == 253 * 65536 + 254
  {
    hide Adler, Crc, AdlerByte;
    AdlerOfA();
    CrcOfA();
    SumsWrap();
  }

  lemma AdlerOfA()
    ensures Adler(1, []) == 1 && Adler(1, [97]) == 0x0062_0062
  {
    var a: seq<byte> := [97];
    assert a[..0] == [] && a[0] as int == 97;
    assert Adler(1, a) == AdlerByte(1, 97);
  }

  lemma CrcOfA()
    ensures Crc(0, []) == 0 && Crc(0, [97]) == 0xe8b7_be43
  {
    var a: seq<byte> := [97];
    assert a[..0] == [];
    assert CrcRegister(0xffff_ffff, a) == CrcByte(0xffff_ffff, 97);
  }

  lemma SumsWrap()
    ensures AdlerByte(65520 * 65536 + 65520, 255) == 253 * 65536 + 254
  {
    assert (255 as byte) as int == 255;
  }

  // ----- The zlib header -----

  /** FLEVEL: 0 fastest, 1 fast, 2 default, 3 slowest. */
  function Flevel(level: nat, strategy: Strategy): nat {
    match strategy
    case HuffmanOnly => 0
    case Rle => 0
    case Fixed => 0
    case _ => if level <= 1 then 0 else if level <= 5 then 1 else if level == 6 then 2 else 3
  }

  lemma LevelFlagsAre(level: nat, strategy: Strategy)
    ensures LevelFlags(level, strategy) == Flevel(level, strategy)
  {
  }

  /** Section 2.2 of RFC 1950, byte by byte: CM, CINFO, FDICT, FLEVEL and FCHECK. */
  lemma ZlibHeaderReads(wBits: nat, level: nat, strategy: Strategy)
    requires 9 <= wBits <= 15
    ensures var b := ZlibHeader(wBits, level, strategy);
      && |b| == 2 && b[0] as int % 16 == 8 && b[0] as int / 16 + 8 == wBits
      && b[1] as int / 32 % 2 == 0 && b[1] as int / 64 == Flevel(level, strategy)
      && (256 * b[0] as int + b[1] as int) % 31 == 0
  {
    hide Low, LevelFlags, ZlibHeaderValue, Flevel;
    var v := ZlibHeaderValue(wBits, level, strategy);
    ZlibHeaderWellFormed(wBits, level, strategy);
    LevelFlagsAre(level, strategy);
    LowValue(v / 256);
    LowValue(v);
    TwoByteFields(v);
  }

  lemma TwoByteFields(v: nat)
    requires v < 0x1_0000
    ensures v / 256 % 256 == v / 256 && v == 256 * (v / 256) + v % 256
    ensures v % 256 / 32 % 2 == v / 32 % 2 && v % 256 / 64 == v / 64 % 4
  {
    var q, r := v / 256, v % 256;
    assert v / 32 == 8 * q + r / 32 && v / 64 == 4 * q + r / 64;
  }

  // ----- The gzip header -----

  /** What a gzip header says, section 2.3 of RFC 1952, and how long it is. */
  datatype GzFields = GzFields(text: bool, time: nat, xfl: nat, os: nat, extra: Option<seq<byte>>,
                               name: Option<seq<byte>>, comment: Option<seq<byte>>, hcrc: bool, length: nat)

  /** A flag of FLG. */
  function Flagged(flags: byte, weight: nat): bool
    requires weight > 0
  {
    flags as int / weight % 2 == 1
  }

  /** XLEN and the extra field. */
  function ReadExtra(b: seq<byte>, at: nat, present: bool): (r: Option<(Option<seq<byte>>, nat)>)
    requires at <= |b|
    ensures r.Some? ==> r.value.1 <= |b|
  {
    if !present then Some((None, at))
    else if at + 2 > |b| then None
    else
      var n := Little(b[at..at + 2]);
      if at + 2 + n > |b| then None else Some((Some(b[at + 2..at + 2 + n]), at + 2 + n))
  }

  /** The first zero byte from `at` on. */
  function ZeroFrom(b: seq<byte>, at: nat): (z: nat)
    requires at <= |b|
    ensures at <= z <= |b|
    decreases |b| - at
  {
    if at == |b| || b[at] == 0 then at else ZeroFrom(b, at + 1)
  }

  /** A zero-terminated text. */
  function ReadText(b: seq<byte>, at: nat, present: bool): (r: Option<(Option<seq<byte>>, nat)>)
    requires at <= |b|
    ensures r.Some? ==> r.value.1 <= |b|
  {
    if !present then Some((None, at))
    else
      var z := ZeroFrom(b, at);
      if z == |b| then None else Some((Some(b[at..z]), z + 1))
  }

  function ReadGzip(b: seq<byte>): Option<GzFields> {
    if |b| < 10 || b[0] != 31 || b[1] != 139 || b[2] != 8 || b[3] as int >= 32 then None
    else
      var extra := ReadExtra(b, 10, Flagged(b[3], 4));
      if extra.None? then None else
      var name := ReadText(b, extra.value.1, Flagged(b[3], 8));
      if name.None? then None else
      var comment := ReadText(b, name.value.1, Flagged(b[3], 16));
      if comment.None? then None else
      ReadHcrc(b, comment.value.1, Flagged(b[3], 2),
               GzFields(Flagged(b[3], 1), Little(b[4..8]), b[8] as int, b[9] as int, extra.value.0, name.value.0,
                        comment.value.0, Flagged(b[3], 2), 0))
  }

  /** CRC16, over all bytes of the header before it. */
  function ReadHcrc(b: seq<byte>, at: nat, present: bool, fields: GzFields): Option<GzFields>
    requires at <= |b|
  {
    if !present then Some(fields.(length := at))
    else if at + 2 <= |b| && Little(b[at..at + 2]) == Crc(0, b[..at]) as int % 0x1_0000
    then Some(fields.(length := at + 2))
    else None
  }

  lemma FlagDigits(x0: bool, x1: bool, x2: bool, x3: bool, x4: bool)
    ensures var f := Bit(x0) + 2 * Bit(x1) + 4 * Bit(x2) + 8 * Bit(x3) + 16 * Bit(x4);
      && f < 32 && (f / 1 % 2 == 1 <==> x0) && (f / 2 % 2 == 1 <==> x1) && (f / 4 % 2 == 1 <==> x2)
      && (f / 8 % 2 == 1 <==> x3) && (f / 16 % 2 == 1 <==> x4)
  {
    var f := Bit(x0) + 2 * Bit(x1) + 4 * Bit(x2) + 8 * Bit(x3) + 16 * Bit(x4);
    assert f / 2 == Bit(x1) + 2 * Bit(x2) + 4 * Bit(x3) + 8 * Bit(x4);
    assert f / 4 == Bit(x2) + 2 * Bit(x3) + 4 * Bit(x4);
    assert f / 8 == Bit(x3) + 2 * Bit(x4);
    assert f / 16 == Bit(x4);
  }

  lemma FlagsAre(h: GzHeader)
    ensures Flags(h) == Bit(h.text) + 2 * Bit(h.hcrc) + 4 * Bit(h.extra.Some?) + 8 * Bit(h.name.Some?)
                        + 16 * Bit(h.comment.Some?)
  {
  }

  /** Section 2.3.1 of RFC 1952: FTEXT, FHCRC, FEXTRA, FNAME and FCOMMENT are bits 0 to 4 of FLG, the rest are zero. */
  lemma FlagsRead(h: GzHeader)
    ensures var f := Low(Flags(h));
      && f as int < 32 && (Flagged(f, 1) <==> h.text) && (Flagged(f, 2) <==> h.hcrc)
      && (Flagged(f, 4) <==> h.extra.Some?) && (Flagged(f, 8) <==> h.name.Some?)
      && (Flagged(f, 16) <==> h.comment.Some?)
  {
    hide Low, Flags, Bit, Flagged;
    var n := Flags(h);
    FlagsAre(h);
    FlagDigits(h.text, h.hcrc, h.extra.Some?, h.name.Some?, h.comment.Some?);
    LowValue(n);
    SmallRemainder(n);
    FlaggedIs(Low(n), n, 1);
    FlaggedIs(Low(n), n, 2);
    FlaggedIs(Low(n), n, 4);
    FlaggedIs(Low(n), n, 8);
    FlaggedIs(Low(n), n, 16);
  }

  lemma FlaggedIs(flags: byte, n: nat, weight: nat)
    requires weight > 0 && flags as int == n
    ensures Flagged(flags, weight) <==> n / weight % 2 == 1
  {
  }

  /** The extra field with its length. */
  function ExtraBytes(h: GzHeader): seq<byte> {
    (if h.extra.Some? then Short(|h.extra.value| % 0x1_0000) else []) + ExtraPart(h)
  }

  /** The extra field as it can be written: its length has 16 bits. */
  function ExtraKept(h: GzHeader): Option<seq<byte>> {
    if h.extra.Some? then Some(h.extra.value[..|h.extra.value| % 0x1_0000]) else None
  }

  lemma ExtraReads(front: seq<byte>, h: GzHeader, rest: seq<byte>)
    ensures ReadExtra(front + ExtraBytes(h) + rest, |front|, h.extra.Some?) ==
            Some((ExtraKept(h), |front| + |ExtraBytes(h)|))
  {
    hide Little, Short;
    if h.extra.Some? {
      var n := |h.extra.value| % 0x1_0000;
      LittleOfShort(n);
      var b := front + ExtraBytes(h) + rest;
      assert b == front + Short(n) + (ExtraPart(h) + rest);
      Middle(front, Short(n), ExtraPart(h) + rest);
      assert b == (front + Short(n)) + ExtraPart(h) + rest;
      Middle(front + Short(n), ExtraPart(h), rest);
    }
  }

  lemma ZeroFound(front: seq<byte>, text: seq<byte>, i: nat, rest: seq<byte>)
    requires i <= |text| && CString(Some(text))
    ensures ZeroFrom(front + (text + [0]) + rest, |front| + i) == |front| + |text|
    decreases |text| - i
  {
    var b := front + (text + [0]) + rest;
    if i < |text| {
      assert b[|front| + i] == text[i];
      ZeroFound(front, text, i + 1, rest);
    } else {
      assert b[|front| + i] == 0;
    }
  }

  lemma TextReads(front: seq<byte>, text: Option<seq<byte>>, rest: seq<byte>)
    requires CString(text)
    ensures ReadText(front + Terminated(text) + rest, |front|, text.Some?) ==
            Some((text, |front| + |Terminated(text)|))
  {
    if text.Some? {
      ZeroFound(front, text.value, 0, rest);
      assert front + Terminated(text) + rest == front + text.value + ([0] + rest);
      Middle(front, text.value, [0] + rest);
    }
  }

  /** XFL: 2 for the slowest compression, 4 for the fastest. */
  function Xfl(level: nat, strategy: Strategy): nat {
    if level == 9 then 2
    else match strategy
      case HuffmanOnly => 4
      case Rle => 4
      case Fixed => 4
      case _ => if level <= 1 then 4 else 0
  }

  lemma ExtraFlagsAre(level: nat, strategy: Strategy)
    ensures ExtraFlags(level, strategy) == Xfl(level, strategy) <= 4
  {
  }

  /** The ten bytes that every gzip header starts with. */
  function Ten(h: GzHeader, level: nat, strategy: Strategy): seq<byte> {
    [31, 139, 8, Low(Flags(h))] + Long(h.time) + [Low(ExtraFlags(level, strategy)), Low(h.os)]
  }

  lemma TenFields(flags: byte, time: seq<byte>, xfl: byte, os: byte)
    requires |time| == 4
    ensures var b := [31, 139, 8, flags] + time + [xfl, os];
      && |b| == 10 && b[0] == 31 && b[1] == 139 && b[2] == 8 && b[3] == flags && b[4..8] == time
      && b[8] == xfl && b[9] == os
  {
  }

  lemma TenReads(h: GzHeader, level: nat, strategy: Strategy)
    ensures var b := Ten(h, level, strategy);
      && |b| == 10 && b[0] == 31 && b[1] == 139 && b[2] == 8 && b[3] == Low(Flags(h))
      && Little(b[4..8]) == h.time % 0x1_0000_0000
      && b[8] as int == Xfl(level, strategy) && b[9] as int == h.os % 256
  {
    hide Low, Flags, Long, Little, ExtraFlags, Xfl;
    LongReadsBack(h.time);
    TenFields(Low(Flags(h)), Long(h.time), Low(ExtraFlags(level, strategy)), Low(h.os));
    ExtraFlagsAre(level, strategy);
    LowValue(ExtraFlags(level, strategy));
    LowValue(h.os);
  }

  lemma UncheckedParts(h: GzHeader, level: nat, strategy: Strategy)
    ensures Unchecked(h, level, strategy) ==
            Ten(h, level, strategy) + ExtraBytes(h) + Terminated(h.name) + Terminated(h.comment)
  {
    hide Low, Flags, Long, ExtraFlags, Short, ExtraPart;
    assert FixedPart(Some(h), level, strategy) + ExtraPart(h) == Ten(h, level, strategy) + ExtraBytes(h);
  }

  /** Reading from the front, part by part. */
  lemma PartsRead(ten: seq<byte>, h: GzHeader, rest: seq<byte>)
    requires |ten| == 10 && ValidHeader(h)
    ensures var b := ten + ExtraBytes(h) + Terminated(h.name) + Terminated(h.comment) + rest;
      var at1 := 10 + |ExtraBytes(h)|;
      var at2 := at1 + |Terminated(h.name)|;
      && ReadExtra(b, 10, h.extra.Some?) == Some((ExtraKept(h), at1))
      && ReadText(b, at1, h.name.Some?) == Some((h.name, at2))
      && ReadText(b, at2, h.comment.Some?) == Some((h.comment, at2 + |Terminated(h.comment)|))
  {
    hide ReadExtra, ReadText, ExtraBytes, Terminated, ExtraKept, CString;
    var x, n, c := ExtraBytes(h), Terminated(h.name), Terminated(h.comment);
    var b := ten + x + n + c + rest;
    ExtraReads(ten, h, n + c + rest);
    assert ten + x + (n + c + rest) == b;
    TextReads(ten + x, h.name, c + rest);
    assert ten + x + n + (c + rest) == b;
    TextReads(ten + x + n, h.comment, rest);
  }

  lemma HcrcReads(u: seq<byte>, rest: seq<byte>, present: bool, fields: GzFields)
    ensures var crc := if present then Short(HeaderCheck(true, u) % 0x1_0000) else [];
      ReadHcrc(u + crc + rest, |u|, present, fields) == Some(fields.(length := |u| + |crc|))
  {
    hide Crc, Little, Short;
    if present {
      var crc := Short(HeaderCheck(true, u) % 0x1_0000);
      LittleOfShort(HeaderCheck(true, u) % 0x1_0000);
      var b := u + crc + rest;
      Middle(u, crc, rest);
      assert b[..|u|] == u;
    }
  }

  /** The front, the flags and the parts give the fields. */
  lemma FieldsRead(b: seq<byte>, ten: seq<byte>, h: GzHeader, level: nat, strategy: Strategy, rest: seq<byte>)
    requires ValidHeader(h) && ten == Ten(h, level, strategy)
    requires b == ten + ExtraBytes(h) + Terminated(h.name) + Terminated(h.comment) + rest
    ensures var at := |ten + ExtraBytes(h) + Terminated(h.name) + Terminated(h.comment)|;
      ReadGzip(b) == ReadHcrc(b, at, h.hcrc,
        GzFields(h.text, h.time % 0x1_0000_0000, Xfl(level, strategy), h.os % 256, ExtraKept(h), h.name, h.comment,
                 h.hcrc, 0))
  {
    hide Low, Flags, Flagged, Little, ReadExtra, ReadText, ReadHcrc, ExtraBytes, Terminated, ExtraKept, Xfl, Ten;
    hide ValidHeader;
    TenReads(h, level, strategy);
    FlagsRead(h);
    PartsRead(ten, h, rest);
    TenInFront(ten, b);
  }

  /** What a reader recovers from the header: everything deflateSetHeader was given, and XFL by the level. */
  lemma GzipHeaderReads(h: GzHeader, level: nat, strategy: Strategy, rest: seq<byte>)
    requires ValidHeader(h)
    ensures var b := GzipHeader(Some(h), level, strategy);
      ReadGzip(b + rest) ==
        Some(GzFields(h.text, h.time % 0x1_0000_0000, Xfl(level, strategy), h.os % 256, ExtraKept(h), h.name, h.comment,
                      h.hcrc, |b|))
  {
    hide ReadGzip, ReadHcrc, ExtraBytes, Terminated, ExtraKept, Xfl, Ten, HeaderCheck, Short, Unchecked, ValidHeader;
    var ten, u := Ten(h, level, strategy), Unchecked(h, level, strategy);
    var crc := if h.hcrc then Short(HeaderCheck(true, u) % 0x1_0000) else [];
    var b := u + crc + rest;
    assert GzipHeader(Some(h), level, strategy) + rest == b;
    UncheckedParts(h, level, strategy);
    assert b == ten + ExtraBytes(h) + Terminated(h.name) + Terminated(h.comment) + (crc + rest);
    FieldsRead(b, ten, h, level, strategy, crc + rest);
    HcrcReads(u, rest, h.hcrc, GzFields(h.text, h.time % 0x1_0000_0000, Xfl(level, strategy), h.os % 256, ExtraKept(h),
                                        h.name, h.comment, h.hcrc, 0));
  }

  lemma TenInFront(ten: seq<byte>, b: seq<byte>)
    requires |ten| == 10 && ten <= b
    ensures b[0] == ten[0] && b[1] == ten[1] && b[2] == ten[2] && b[3] == ten[3] && b[4..8] == ten[4..8]
    ensures b[8] == ten[8] && b[9] == ten[9]
  {
  }

  /** Without deflateSetHeader the fields are all zero, but for XFL and the operating system. */
  lemma PlainGzipReads(level: nat, strategy: Strategy, rest: seq<byte>)
    ensures ReadGzip(GzipHeader(None, level, strategy) + rest) ==
            Some(GzFields(false, 0, Xfl(level, strategy), 3, None, None, None, false, 10))
  {
    hide ReadGzip, ReadHcrc, Xfl, Ten, ExtraBytes, Terminated, ExtraKept, ValidHeader, GzipHeader, Little;
    var h := GzHeader(false, 0, 3, None, None, None, false);
    NothingSet(h, level, strategy);
    var ten := Ten(h, level, strategy);
    NoParts(ten, ExtraBytes(h), Terminated(h.name), Terminated(h.comment));
    FieldsRead(ten + rest, ten, h, level, strategy, rest);
    NoHcrcReads(ten + rest, 10);
  }

  lemma NoParts(ten: seq<byte>, x: seq<byte>, n: seq<byte>, c: seq<byte>)
    requires x == [] && n == [] && c == []
    ensures ten + x + n + c == ten
  {
  }

  lemma NoHcrcReads(b: seq<byte>, at: nat)
    requires at <= |b|
    ensures forall fields :: ReadHcrc(b, at, false, fields) == Some(fields.(length := at))
  {
  }

  lemma NothingSet(h: GzHeader, level: nat, strategy: Strategy)
    requires h == GzHeader(false, 0, 3, None, None, None, false)
    ensures GzipHeader(None, level, strategy) == Ten(h, level, strategy) && ValidHeader(h)
    ensures |Ten(h, level, strategy)| == 10
    ensures ExtraBytes(h) == [] && Terminated(h.name) == [] && Terminated(h.comment) == [] && ExtraKept(h) == None
  {
  }

  // ----- Whole streams -----

  lemma BitsOfFront(a: seq<byte>, n: nat)
    requires n <= |a|
    ensures BitsOf(a) == BitsOf(a[..n]) + BitsOf(a[n..])
  {
    hide BitsOf;
    BitsOfAppend(a[..n], a[n..]);
    assert a[..n] + a[n..] == a;
  }

  lemma SameSplit(a: seq<bool>, b: seq<bool>, c: seq<bool>, d: seq<bool>)
    requires a + b == c + d && |a| == |c|
    ensures a == c && b == d
  {
    assert a == (a + b)[..|a|] && b == (a + b)[|a|..];
    assert c == (c + d)[..|c|] && d == (c + d)[|c|..];
  }

  /** A stream begins with its header and ends with its trailer, byte for byte. */
  lemma StreamIsFramed(coder: Coder, out: seq<byte>, header: seq<byte>, wrap: Wrap, reach: nat, input: seq<byte>)
    requires StreamOf(coder, out, header, wrap, reach, input)
    ensures var t := TrailerFor(wrap, input);
      |header| + |t| <= |out| && out[..|header|] == header && out[|out| - |t|..] == t
  {
    hide BitsOf, Encode, TrailerFor, DecodeAll, Closed, AllWellFormed;
    var blocks: seq<Block> :| AllWellFormed(blocks) && Closed(blocks) && DecodeAll(reach, blocks) == Some(input)
      && BitsOf(out) == BitsOf(header) + Encode(coder, 8 * |header|, blocks) + BitsOf(TrailerFor(wrap, input));
    var body, t := Encode(coder, 8 * |header|, blocks), TrailerFor(wrap, input);
    assert 8 * |out| == 8 * |header| + |body| + 8 * |t|;
    BitsOfFront(out, |header|);
    BitsOfFront(out, |out| - |t|);
    assert BitsOf(header) + (body + BitsOf(t)) == BitsOf(header) + body + BitsOf(t);
    SameSplit(BitsOf(out[..|header|]), BitsOf(out[|header|..]), BitsOf(header), body + BitsOf(t));
    SameSplit(BitsOf(out[..|out| - |t|]), BitsOf(out[|out| - |t|..]), BitsOf(header) + body, BitsOf(t));
    SameBits(out[..|header|], header);
    SameBits(out[|out| - |t|..], t);
  }

  /** What a gzip reader makes of a whole gzip stream: the fields of its header, and the CRC and length of its input. */
  lemma GzipStreamReads(p: Setup, strategy: Strategy, h: GzHeader, coder: Coder, out: seq<byte>, input: seq<byte>)
    requires 9 <= p.windowBits <= 15 && p.wrap.Gzip? && ValidHeader(h)
    requires StreamOf(coder, out, HeaderOf(p, strategy, Some(h)), p.wrap, Reach(p.windowBits), input)
    ensures var n := |GzipHeader(Some(h), p.level, strategy)|;
      && n + 8 <= |out|
      && ReadGzip(out) ==
           Some(GzFields(h.text, h.time % 0x1_0000_0000, Xfl(p.level, strategy), h.os % 256, ExtraKept(h), h.name,
                         h.comment, h.hcrc, n))
      && Little(out[|out| - 8..|out| - 4]) == Crc(0, input) as int
      && Little(out[|out| - 4..]) == |input| % 0x1_0000_0000
  {
    hide StreamOf, GzipHeader, ValidHeader, ReadGzip, Xfl, ExtraKept, Little, Crc, TrailerFor, Reach;
    var header, n := HeaderOf(p, strategy, Some(h)), |out|;
    StreamIsFramed(coder, out, header, p.wrap, Reach(p.windowBits), input);
    GzipHeaderReads(h, p.level, strategy, out[|header|..]);
    assert out == header + out[|header|..];
    TrailerReads(Gzip, input);
    assert out[n - 8..][..4] == out[n - 8..n - 4] && out[n - 8..][4..] == out[n - 4..];
  }

  /** And what a zlib reader makes of a zlib stream. */
  lemma ZlibStreamReads(p: Setup, strategy: Strategy, coder: Coder, out: seq<byte>, input: seq<byte>)
    requires 9 <= p.windowBits <= 15 && p.wrap.Zlib?
    requires StreamOf(coder, out, HeaderOf(p, strategy, None), p.wrap, Reach(p.windowBits), input)
    ensures |out| >= 6 && out[0] as int % 16 == 8 && out[0] as int / 16 + 8 == p.windowBits
    ensures out[1] as int / 32 % 2 == 0 && out[1] as int / 64 == Flevel(p.level, strategy)
    ensures (256 * out[0] as int + out[1] as int) % 31 == 0 && Big(out[|out| - 4..]) == Adler(1, input)
  {
    hide StreamOf, ZlibHeader, Flevel, Big, Adler, TrailerFor, Reach;
    var header := HeaderOf(p, strategy, None);
    StreamIsFramed(coder, out, header, p.wrap, Reach(p.windowBits), input);
    ZlibHeaderReads(p.windowBits, p.level, strategy);
    TrailerReads(Zlib, input);
    assert out[0] == out[..2][0] && out[1] == out[..2][1];
  }
}
