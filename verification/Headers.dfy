/** The zlib and gzip headers, as formats and as deflate emits them through a bounded buffer. */
module Headers {
  import opened Basics
  import opened Bits
  import opened Checks
  import opened DeflateStates

  const OS_CODE: nat := 3

  /** Bits 6 and 7 of FLG. */
  function LevelFlags(level: nat, strategy: Strategy): nat {
    if strategy.HuffmanOnly? || strategy.Rle? || strategy.Fixed? || level < 2 then 0
    else if level < 6 then 1
    else if level == 6 then 2
    else 3
  }

  /** CMF and FLG as one number, without a preset dictionary. */
  function ZlibHeaderValue(wBits: nat, level: nat, strategy: Strategy): nat
    requires 8 <= wBits <= 15
  {
    var header := (8 + (wBits - 8) * 16) * 256 + LevelFlags(level, strategy) * 64;
    header + 31 - header % 31
  }

  lemma FieldsOf(k: nat, f: nat, d: nat)
    requires f < 4 && d < 32
    ensures var h := 256 * k + 64 * f + d; h / 256 == k && h / 32 % 2 == 0 && h / 64 % 4 == f
  {
    var h := 256 * k + 64 * f + d;
    assert h / 32 == 8 * k + 2 * f && h / 64 == 4 * k + f;
  }

  /** Section 2.2 of RFC 1950: method 8, the window size, no dictionary, and a multiple of 31. */
  lemma ZlibHeaderWellFormed(wBits: nat, level: nat, strategy: Strategy)
    requires 9 <= wBits <= 15
    ensures var h := ZlibHeaderValue(wBits, level, strategy);
      && h < 0x1_0000 && h % 31 == 0
      && h / 256 % 16 == 8 && h / 256 / 16 == wBits - 8
      && h / 32 % 2 == 0 && h / 64 % 4 == LevelFlags(level, strategy)
  {
    hide LevelFlags;
    var k, f := 8 + (wBits - 8) * 16, LevelFlags(level, strategy);
    assert f < 4 by { FlagsAreTwoBits(level, strategy); }
    var header := 256 * k + 64 * f;
    var d := 31 - header % 31;
    FieldsOf(k, f, d);
    RoundUp31(header);
    assert k % 16 == 8 && k / 16 == wBits - 8;
  }

  lemma RoundUp31(x: nat)
    ensures (x + 31 - x % 31) % 31 == 0 && 1 <= 31 - x % 31 <= 31
  {
    assert x + 31 - x % 31 == 31 * (x / 31 + 1);
  }

  lemma FlagsAreTwoBits(level: nat, strategy: Strategy)
    ensures LevelFlags(level, strategy) < 4
  {
  }

  /** A 16-bit value, most significant byte first: putShortMSB. */
  function ShortMsb(n: nat): seq<byte> {
    [Low(n / 256), Low(n)]
  }

  function ZlibHeader(wBits: nat, level: nat, strategy: Strategy): seq<byte>
    requires 8 <= wBits <= 15
  {
    ShortMsb(ZlibHeaderValue(wBits, level, strategy))
  }

  /** A 32-bit value, least significant byte first. */
  function Long(n: nat): seq<byte> {
    [Low(n), Low(n / 0x100), Low(n / 0x1_0000), Low(n / 0x100_0000)]
  }

  /** XFL of section 2.3.1 of RFC 1952. */
  function ExtraFlags(level: nat, strategy: Strategy): nat {
    if level == 9 then 2
    else if strategy.HuffmanOnly? || strategy.Rle? || strategy.Fixed? || level < 2 then 4
    else 0
  }

  function Flag(x: bool, v: nat): nat { if x then v else 0 }

  function Flags(h: GzHeader): nat {
    Flag(h.text, 1) + Flag(h.hcrc, 2) + Flag(h.extra.Some?, 4) + Flag(h.name.Some?, 8) + Flag(h.comment.Some?, 16)
  }

  /** The part of the gzip header before the extra field's data. */
  function FixedPart(h: Option<GzHeader>, level: nat, strategy: Strategy): seq<byte> {
    match h
    case None => [31, 139, 8, 0, 0, 0, 0, 0, Low(ExtraFlags(level, strategy)), Low(OS_CODE)]
    case Some(h) =>
      [31, 139, 8, Low(Flags(h))] + Long(h.time) + [Low(ExtraFlags(level, strategy)), Low(h.os)] +
      (if h.extra.Some? then Short(|h.extra.value| % 0x1_0000) else [])
  }

  function ExtraPart(h: GzHeader): seq<byte> {
    if h.extra.Some? then h.extra.value[..|h.extra.value| % 0x1_0000] else []
  }

  /** A string with its terminating zero. */
  function Terminated(s: Option<seq<byte>>): seq<byte> {
    if s.Some? then s.value + [0] else []
  }

  function Unchecked(h: GzHeader, level: nat, strategy: Strategy): seq<byte> {
    FixedPart(Some(h), level, strategy) + ExtraPart(h) + Terminated(h.name) + Terminated(h.comment)
  }

  /** strm->adler while the header is written: the header CRC so far, if one is wanted. */
  function HeaderCheck(hcrc: bool, bytes: seq<byte>): (r: nat)
    ensures r < UINT32
  {
    if hcrc then Checks.Update(Gzip, 0, bytes) else 0
  }

  /** The whole gzip header, section 2.3 of RFC 1952, in one piece. */
  function GzipHeader(h: Option<GzHeader>, level: nat, strategy: Strategy): seq<byte> {
    match h
    case None => FixedPart(None, level, strategy)
    case Some(h) =>
      var u := Unchecked(h, level, strategy);
      u + (if h.hcrc then Short(HeaderCheck(true, u) % 0x1_0000) else [])
  }

  /** C strings end at their first zero. */
  ghost predicate CString(s: Option<seq<byte>>) {
    s.Some? ==> forall i :: 0 <= i < |s.value| ==> s.value[i] != 0
  }

  ghost predicate ValidHeader(h: GzHeader) {
    CString(h.name) && CString(h.comment)
  }

  /** While the header is written: what was put so far is delivered or queued, in order, in a bounded queue. */
  ghost predicate Writing(s: DeflateState)
    reads s`header, s.out
  {
    && s.out.Valid() && s.out.bits == [] && s.out.pending <= s.PendingBufSize()
    && s.out.delivered + s.out.Queue() == s.header
  }

  /** put_byte, into a buffer with room. */
  method Put(s: DeflateState, c: byte)
    requires Writing(s) && s.out.pendingOut == 0 && s.out.pending < s.PendingBufSize()
    modifies s`header, s.out
    ensures Writing(s) && s.out.pendingOut == 0 && s.out.pending == old(s.out.pending) + 1
    ensures s.header == old(s.header) + [c] && s.out.Queue() == old(s.out.Queue()) + [c]
    ensures s.out.availOut == old(s.out.availOut) && s.out.delivered == old(s.out.delivered)
  {
    s.out.PutByte(c);
    s.header := s.header + [c];
  }

  method PutAll(s: DeflateState, data: seq<byte>)
    requires Writing(s) && s.out.pendingOut == 0 && s.out.pending + |data| <= s.PendingBufSize()
    modifies s`header, s.out
    ensures Writing(s) && s.out.pendingOut == 0 && s.out.pending == old(s.out.pending) + |data|
    ensures s.header == old(s.header) + data && s.out.Queue() == old(s.out.Queue()) + data
    ensures s.out.availOut == old(s.out.availOut) && s.out.delivered == old(s.out.delivered)
  {
    s.out.PutBytes(data);
    s.header := s.header + data;
  }

  lemma CheckGrows(hcrc: bool, a: seq<byte>, b: seq<byte>)
    ensures hcrc ==> HeaderCheck(hcrc, a + b) == Checks.Update(Gzip, HeaderCheck(hcrc, a), b)
  {
    hide Checks.Update;
    UpdateAppend(Gzip, 0, a, b);
  }

  /** The header CRC covers everything but the last `beg`.. bytes of the queue. */
  ghost predicate Covered(s: DeflateState, hcrc: bool, beg: nat)
    requires s.out.Valid()
    reads s`header, s`check, s.out
  {
    && beg <= s.out.pending <= |s.header|
    && s.check == HeaderCheck(hcrc, s.header[..|s.header| - (s.out.pending - beg)])
  }

  /** HCRC_UPDATE. */
  method HcrcUpdate(s: DeflateState, hcrc: bool, beg: nat)
    requires Writing(s) && s.out.pendingOut == 0 && Covered(s, hcrc, beg)
    modifies s`check
    ensures Covered(s, hcrc, s.out.pending) && s.check == HeaderCheck(hcrc, s.header)
  {
    hide HeaderCheck, Checks.Update;
    var latest := s.out.pendingBuf[beg..s.out.pending];
    ghost var covered := s.header[..|s.header| - (s.out.pending - beg)];
    assert s.header == covered + latest;
    assert s.header[..|s.header|] == s.header;
    CheckGrows(hcrc, covered, latest);
    NoCheck(hcrc, covered, s.header);
    CheckFits(hcrc, covered);
    if hcrc && s.out.pending > beg {
      s.check := Checks.Update(Gzip, s.check, latest);
    } else if hcrc {
      assert covered == s.header;
    }
  }

  lemma NoCheck(hcrc: bool, a: seq<byte>, b: seq<byte>)
    ensures !hcrc ==> HeaderCheck(hcrc, a) == HeaderCheck(hcrc, b)
  {
  }

  lemma CheckFits(hcrc: bool, a: seq<byte>)
    ensures HeaderCheck(hcrc, a) < UINT32
  {
  }

  lemma TakeMore(before: seq<byte>, t: seq<byte>, i: nat)
    requires i < |t|
    ensures before + t[..i] + [t[i]] == before + t[..i + 1]
  {
  }

  /** One more byte that the CRC does not cover yet. */
  method PutUncovered(s: DeflateState, c: byte, hcrc: bool, ghost beg: nat)
    requires Writing(s) && s.out.pendingOut == 0 && s.out.pending < s.PendingBufSize() && Covered(s, hcrc, beg)
    modifies s`header, s.out
    ensures Writing(s) && s.out.pendingOut == 0 && Covered(s, hcrc, beg)
    ensures s.header == old(s.header) + [c]
    ensures s.out.availOut <= old(s.out.availOut) && s.out.Room() == old(s.out.Room())
  {
    hide HeaderCheck;
    ghost var covered := s.header[..|s.header| - (s.out.pending - beg)];
    Put(s, c);
    assert covered == s.header[..|s.header| - (s.out.pending - beg)];
  }

  /** Covers what is queued and delivers it; `empty` if all of it could be delivered. */
  method CoverAndFlush(s: DeflateState, hcrc: bool, beg: nat) returns (empty: bool)
    requires Writing(s) && s.out.pendingOut == 0 && Covered(s, hcrc, beg)
    modifies s`check, s.out
    ensures Writing(s) && s.check == HeaderCheck(hcrc, s.header)
    ensures if empty then s.out.pending == 0 && s.out.pendingOut == 0 && Covered(s, hcrc, 0)
            else s.out.availOut == 0
    ensures s.out.availOut <= old(s.out.availOut) && s.out.Room() == old(s.out.Room())
  {
    hide HeaderCheck;
    HcrcUpdate(s, hcrc, beg);
    s.out.FlushPending();
    empty := s.out.pending == 0;
    assert s.header[..|s.header|] == s.header;
  }

  /** The loop of NAME_STATE and COMMENT_STATE: a zero-terminated string from gzindex on. */
  method PutString(s: DeflateState, text: seq<byte>, hcrc: bool, ghost before: seq<byte>) returns (done: bool)
    requires Writing(s) && s.out.pendingOut == 0 && s.PendingBufSize() > 0
    requires s.check == HeaderCheck(hcrc, s.header)
    requires CString(Some(text)) && s.gzindex <= |text| && s.header == before + (text + [0])[..s.gzindex]
    modifies s`header, s`check, s`gzindex, s.out
    ensures Writing(s) && s.check == HeaderCheck(hcrc, s.header)
    ensures if done then s.header == before + (text + [0]) && s.out.pendingOut == 0
            else s.out.availOut == 0 && s.gzindex <= |text| && s.header == before + (text + [0])[..s.gzindex]
    ensures s.out.availOut <= old(s.out.availOut) && s.out.Room() == old(s.out.Room())
  {
    hide HeaderCheck, Covered;
    var beg := s.out.pending;
    AllCovered(s, hcrc);
    ghost var whole := text + [0];
    while true
      invariant Writing(s) && s.out.Valid() && s.out.pendingOut == 0 && s.gzindex <= |text|
      invariant s.out.availOut <= old(s.out.availOut) && s.out.Room() == old(s.out.Room())
      invariant s.header == before + whole[..s.gzindex] && Covered(s, hcrc, beg) && s.out.pending <= s.PendingBufSize()
      decreases |text| - s.gzindex
    {
      if s.out.pending == s.PendingBufSize() {
        var empty := CoverAndFlush(s, hcrc, beg);
        if !empty { return false; }
        beg := 0;
      }
      var val := if s.gzindex == |text| then 0 else text[s.gzindex];
      TakeMore(before, whole, s.gzindex);
      s.gzindex := s.gzindex + 1;
      PutUncovered(s, val, hcrc, beg);
      if val == 0 { break; }
    }
    assert whole[..s.gzindex] == whole;
    HcrcUpdate(s, hcrc, beg);
    done := true;
  }

  lemma AllCovered(s: DeflateState, hcrc: bool)
    requires Writing(s) && s.check == HeaderCheck(hcrc, s.header)
    ensures Covered(s, hcrc, s.out.pending)
  {
    assert s.header[..|s.header|] == s.header;
  }

  lemma TakeChunk(before: seq<byte>, t: seq<byte>, i: nat, k: nat)
    requires i + k <= |t|
    ensures before + t[..i] + t[i..i + k] == before + t[..i + k]
    ensures i + k == |t| ==> t[..i + k] == t && t[i..i + k] == t[i..]
  {
  }

  /** The loop of EXTRA_STATE: n bytes of the extra field, copied in pieces that fit. */
  method PutExtra(s: DeflateState, extra: seq<byte>, hcrc: bool, ghost before: seq<byte>) returns (done: bool)
    requires Writing(s) && s.out.pendingOut == 0 && s.PendingBufSize() > 0
    requires s.check == HeaderCheck(hcrc, s.header)
    requires s.gzindex <= |extra| && s.header == before + extra[..s.gzindex]
    modifies s`header, s`check, s`gzindex, s.out
    ensures Writing(s) && s.check == HeaderCheck(hcrc, s.header)
    ensures if done then s.header == before + extra && s.out.pendingOut == 0
            else s.out.availOut == 0 && s.gzindex <= |extra| && s.header == before + extra[..s.gzindex]
    ensures s.out.availOut <= old(s.out.availOut) && s.out.Room() == old(s.out.Room())
  {
    hide HeaderCheck, Covered;
    var beg := s.out.pending;
    AllCovered(s, hcrc);
    while s.out.pending + (|extra| - s.gzindex) > s.PendingBufSize()
      invariant Writing(s) && s.out.pendingOut == 0 && s.gzindex <= |extra|
      invariant s.out.availOut <= old(s.out.availOut) && s.out.Room() == old(s.out.Room())
      invariant s.header == before + extra[..s.gzindex] && Covered(s, hcrc, beg)
      decreases |extra| - s.gzindex, s.out.pending
    {
      var copy := s.PendingBufSize() - s.out.pending;
      PutAllUncovered(s, extra[s.gzindex..s.gzindex + copy], hcrc, beg);
      TakeChunk(before, extra, s.gzindex, copy);
      s.gzindex := s.gzindex + copy;
      var empty := CoverAndFlush(s, hcrc, beg);
      if !empty { return false; }
      beg := 0;
    }
    PutAllUncovered(s, extra[s.gzindex..], hcrc, beg);
    TakeChunk(before, extra, s.gzindex, |extra| - s.gzindex);
    HcrcUpdate(s, hcrc, beg);
    done := true;
  }

  method PutAllUncovered(s: DeflateState, data: seq<byte>, hcrc: bool, ghost beg: nat)
    requires Writing(s) && s.out.pendingOut == 0 && s.out.pending + |data| <= s.PendingBufSize()
    requires Covered(s, hcrc, beg)
    modifies s`header, s.out
    ensures Writing(s) && s.out.pendingOut == 0 && Covered(s, hcrc, beg)
    ensures s.header == old(s.header) + data && s.out.pending == old(s.out.pending) + |data|
    ensures s.out.availOut <= old(s.out.availOut) && s.out.Room() == old(s.out.Room())
  {
    hide HeaderCheck;
    ghost var covered := s.header[..|s.header| - (s.out.pending - beg)];
    PutAll(s, data);
    assert covered == s.header[..|s.header| - (s.out.pending - beg)];
  }

  /** The header of a stream with these parameters. */
  function HeaderFor(wrap: Wrap, wBits: nat, level: nat, strategy: Strategy, gzhead: Option<GzHeader>): seq<byte>
    requires 8 <= wBits <= 15
  {
    match wrap
    case Raw => []
    case Zlib => ZlibHeader(wBits, level, strategy)
    case Gzip => GzipHeader(gzhead, level, strategy)
  }

  /** The header this stream is to have. */
  function FullHeader(s: DeflateState): seq<byte>
    requires 8 <= s.wBits <= 15
  {
    HeaderFor(s.wrap, s.wBits, s.level, s.strategy, s.gzhead)
  }

  /** How much of a gzip header with a gz_header has been put, by the state the machine is in. */
  ghost predicate GzProgress(s: DeflateState, h: GzHeader)
    reads s`status, s`gzindex, s`header
  {
    var fixed := FixedPart(Some(h), s.level, s.strategy);
    if s.status.ExtraState? then
      s.gzindex <= |ExtraPart(h)| && s.header == fixed + ExtraPart(h)[..s.gzindex]
    else if s.status.NameState? then
      && (h.name.None? ==> s.gzindex == 0) && (h.name.Some? ==> s.gzindex <= |h.name.value|)
      && s.header == fixed + ExtraPart(h) + Terminated(h.name)[..s.gzindex]
    else if s.status.CommentState? then
      && (h.comment.None? ==> s.gzindex == 0) && (h.comment.Some? ==> s.gzindex <= |h.comment.value|)
      && s.header == fixed + ExtraPart(h) + Terminated(h.name) + Terminated(h.comment)[..s.gzindex]
    else
      s.header == Unchecked(h, s.level, s.strategy)
  }

  /** How much of the header has been put. */
  ghost predicate Progress(s: DeflateState)
    requires 8 <= s.wBits <= 15
    reads s`status, s`gzindex, s`header, s`check
  {
    if s.status.InitState? then
      s.header == [] && !s.wrap.Gzip? && s.check == Initial(s.wrap) && s.gzindex == 0
    else if s.status.GzipState? then
      s.header == [] && s.wrap.Gzip? && s.gzindex == 0
    else if s.status.BusyState? || s.status.FinishState? then
      s.header == FullHeader(s)
    else
      && s.wrap.Gzip? && s.gzhead.Some? && ValidHeader(s.gzhead.value)
      && s.check == HeaderCheck(s.gzhead.value.hcrc, s.header)
      && GzProgress(s, s.gzhead.value)
  }

  /** What every header step keeps. */
  ghost predicate HeaderInv(s: DeflateState)
    reads s`status, s`gzindex, s`header, s`check, s.out
  {
    8 <= s.wBits <= 15 && s.PendingBufSize() >= 16 && Writing(s) && Progress(s)
    && (s.gzhead.Some? ==> ValidHeader(s.gzhead.value))
  }

  /** The zlib header. */
  method WriteZlib(s: DeflateState)
    requires HeaderInv(s) && s.status.InitState? && s.wrap.Zlib? && s.out.pending == 0
    modifies s`status, s`header, s`check, s.out
    ensures HeaderInv(s) && s.status.BusyState? && s.check == Initial(s.wrap)
    ensures s.out.pending == 0 || s.out.availOut == 0
    ensures s.out.availOut <= old(s.out.availOut) && s.out.Room() == old(s.out.Room())
  {
    hide Low;
    PutAll(s, ZlibHeader(s.wBits, s.level, s.strategy));
    s.check := 1;
    s.status := BusyState;
    s.out.FlushPending();
  }

  /** GZIP_STATE without a gz_header. */
  method WritePlainGzip(s: DeflateState)
    requires HeaderInv(s) && s.status.GzipState? && s.gzhead.None? && s.out.pending == 0
    modifies s`status, s`header, s`check, s.out
    ensures HeaderInv(s) && s.status.BusyState? && s.check == Initial(s.wrap)
    ensures s.out.pending == 0 || s.out.availOut == 0
    ensures s.out.availOut <= old(s.out.availOut) && s.out.Room() == old(s.out.Room())
  {
    hide Low;
    s.check := 0;
    PutAll(s, FixedPart(None, s.level, s.strategy));
    s.status := BusyState;
    s.out.FlushPending();
  }

  lemma FixedPartSmall(h: Option<GzHeader>, level: nat, strategy: Strategy)
    ensures |FixedPart(h, level, strategy)| <= 12
  {
    hide Low;
  }

  /** GZIP_STATE with a gz_header. */
  method WriteFixed(s: DeflateState)
    requires HeaderInv(s) && s.status.GzipState? && s.gzhead.Some? && s.out.pending == 0
    modifies s`status, s`header, s`check, s`gzindex, s.out
    ensures HeaderInv(s) && s.status.ExtraState? && s.out.pendingOut == 0
    ensures s.out.availOut <= old(s.out.availOut) && s.out.Room() == old(s.out.Room())
  {
    hide Low, FixedPart, HeaderCheck, Checks.Update;
    var h := s.gzhead.value;
    FixedPartSmall(s.gzhead, s.level, s.strategy);
    s.check := 0;
    PutAll(s, FixedPart(s.gzhead, s.level, s.strategy));
    CheckStart(h.hcrc, s.header);
    if h.hcrc {
      assert s.out.pendingBuf[..s.out.pending] == s.header;
      s.check := Checks.Update(Gzip, s.check, s.out.pendingBuf[..s.out.pending]);
    }
    s.gzindex := 0;
    s.status := ExtraState;
    assert ExtraPart(h)[..0] == [];
  }

  lemma CheckStart(hcrc: bool, a: seq<byte>)
    ensures HeaderCheck(hcrc, a) == if hcrc then Checks.Update(Gzip, 0, a) else 0
  {
  }

  /** EXTRA_STATE. */
  method WriteExtra(s: DeflateState) returns (ok: bool)
    requires HeaderInv(s) && s.status.ExtraState? && s.out.pendingOut == 0
    modifies s`status, s`header, s`check, s`gzindex, s.out
    ensures HeaderInv(s)
    ensures if ok then s.status.NameState? && s.out.pendingOut == 0 else s.status.ExtraState? && s.out.availOut == 0
    ensures s.out.availOut <= old(s.out.availOut) && s.out.Room() == old(s.out.Room())
  {
    hide FixedPart, HeaderCheck, Writing, CString;
    var h := s.gzhead.value;
    if h.extra.Some? {
      ok := PutExtra(s, ExtraPart(h), h.hcrc, FixedPart(s.gzhead, s.level, s.strategy));
      if !ok { return; }
      s.gzindex := 0;
    }
    assert Terminated(h.name)[..0] == [];
    s.status := NameState;
    ok := true;
  }

  /** NAME_STATE. */
  method WriteName(s: DeflateState) returns (ok: bool)
    requires HeaderInv(s) && s.status.NameState? && s.out.pendingOut == 0
    modifies s`status, s`header, s`check, s`gzindex, s.out
    ensures HeaderInv(s)
    ensures if ok then s.status.CommentState? && s.out.pendingOut == 0 else s.status.NameState? && s.out.availOut == 0
    ensures s.out.availOut <= old(s.out.availOut) && s.out.Room() == old(s.out.Room())
  {
    hide FixedPart, HeaderCheck, Writing, CString, ExtraPart;
    var h := s.gzhead.value;
    if h.name.Some? {
      ok := PutString(s, h.name.value, h.hcrc, FixedPart(s.gzhead, s.level, s.strategy) + ExtraPart(h));
      if !ok { return; }
      s.gzindex := 0;
    }
    assert Terminated(h.comment)[..0] == [];
    s.status := CommentState;
    ok := true;
  }

  /** COMMENT_STATE. */
  method WriteComment(s: DeflateState) returns (ok: bool)
    requires HeaderInv(s) && s.status.CommentState? && s.out.pendingOut == 0
    modifies s`status, s`header, s`check, s`gzindex, s.out
    ensures HeaderInv(s)
    ensures if ok then s.status.HcrcState? && s.out.pendingOut == 0 else s.status.CommentState? && s.out.availOut == 0
    ensures s.out.availOut <= old(s.out.availOut) && s.out.Room() == old(s.out.Room())
  {
    hide FixedPart, HeaderCheck, Writing, CString, ExtraPart;
    var h := s.gzhead.value;
    if h.comment.Some? {
      ok := PutString(s, h.comment.value, h.hcrc,
                      FixedPart(s.gzhead, s.level, s.strategy) + ExtraPart(h) + Terminated(h.name));
      if !ok { return; }
    }
    s.status := HcrcState;
    ok := true;
  }

  lemma HcrcBytes(n: nat)
    ensures Short(n % 0x1_0000) == [Low(n), Low(n / 256)]
  {
    hide Low;
    LowSixteen(n);
    LowMod(n, n % 0x1_0000);
    LowMod(n / 256, n % 0x1_0000 / 256);
  }

  lemma LowSixteen(n: nat)
    ensures n % 256 == n % 0x1_0000 % 256
    ensures n / 256 % 256 == n % 0x1_0000 / 256 % 256
  {
    var q, r := n / 0x1_0000, n % 0x1_0000;
    assert n == 0x1_0000 * q + r;
    assert n / 256 == 256 * q + r / 256;
  }

  lemma LowMod(a: nat, b: nat)
    requires a % 256 == b % 256
    ensures Low(a) == Low(b)
  {
  }

  /** The two CRC bytes of HCRC_STATE, once there is room for them. */
  method PutHcrc(s: DeflateState)
    requires HeaderInv(s) && s.status.HcrcState? && s.out.pendingOut == 0 && s.gzhead.value.hcrc
    requires s.out.pending + 2 <= s.PendingBufSize()
    modifies s`header, s`check, s.out
    ensures Writing(s) && s.out.pendingOut == 0 && s.check == 0 && s.header == FullHeader(s)
    ensures s.out.availOut <= old(s.out.availOut) && s.out.Room() == old(s.out.Room())
  {
    hide FixedPart, HeaderCheck, CString, ExtraPart, Low, Short, Unchecked;
    HcrcBytes(s.check);
    PutAll(s, [Low(s.check), Low(s.check / 256)]);
    s.check := 0;
  }

  /** HCRC_STATE. */
  method WriteHcrc(s: DeflateState) returns (ok: bool)
    requires HeaderInv(s) && s.status.HcrcState? && s.out.pendingOut == 0
    modifies s`status, s`header, s`check, s.out
    ensures HeaderInv(s)
    ensures if ok then s.status.BusyState? && s.check == Initial(s.wrap) && s.out.pending == 0
            else s.out.availOut == 0 && (s.status.HcrcState? || (s.status.BusyState? && s.check == Initial(s.wrap)))
    ensures s.out.availOut <= old(s.out.availOut) && s.out.Room() == old(s.out.Room())
  {
    hide FixedPart, HeaderCheck, CString, ExtraPart, Unchecked;
    if s.gzhead.value.hcrc {
      if s.out.pending + 2 > s.PendingBufSize() {
        s.out.FlushPending();
        if s.out.pending != 0 { return false; }
      }
      PutHcrc(s);
    } else {
      CheckStart(false, s.header);
      NoHcrc(s);
    }
    hide FullHeader;
    s.status := BusyState;
    s.out.FlushPending();
    ok := s.out.pending == 0;
  }

  /** Without a header CRC the unchecked part is the whole header. */
  lemma NoHcrc(s: DeflateState)
    requires HeaderInv(s) && s.status.HcrcState? && !s.gzhead.value.hcrc
    ensures s.header == FullHeader(s)
  {
    hide FixedPart, HeaderCheck, CString, ExtraPart;
  }

  /** The header states in order, from wherever the last call left off; `ready` for compression to start. */
  method WriteHeader(s: DeflateState) returns (ready: bool)
    requires HeaderInv(s) && s.out.pending == 0 && !s.status.BusyState? && !s.status.FinishState?
    modifies s`status, s`header, s`check, s`gzindex, s.out
    ensures HeaderInv(s) && !s.status.FinishState?
    ensures ready ==> s.status.BusyState? && s.out.pending == 0
    ensures !ready ==> s.out.availOut == 0
    ensures s.status.BusyState? ==> s.check == Initial(s.wrap)
    ensures s.out.availOut <= old(s.out.availOut) && s.out.Room() == old(s.out.Room())
  {
    hide Progress, Writing;
    ProgressStart(s);
    if s.status.InitState? && s.wrap.Raw? {
      s.status := BusyState;
      RawHasNoHeader(s);
      return true;
    }
    if s.status.InitState? {
      WriteZlib(s);
      return s.out.pending == 0;
    }
    if s.status.GzipState? {
      if s.gzhead.None? {
        WritePlainGzip(s);
        return s.out.pending == 0;
      }
      WriteFixed(s);
    }
    if s.status.ExtraState? {
      var ok := WriteExtra(s);
      if !ok { return false; }
    }
    if s.status.NameState? {
      var ok := WriteName(s);
      if !ok { return false; }
    }
    if s.status.CommentState? {
      var ok := WriteComment(s);
      if !ok { return false; }
    }
    ready := WriteHcrc(s);
  }

  lemma ProgressStart(s: DeflateState)
    requires HeaderInv(s) && s.out.pending == 0
    ensures s.out.pendingOut == 0
    ensures s.status.InitState? ==> s.header == [] && s.check == Initial(s.wrap) && !s.wrap.Gzip?
    ensures s.status.GzipState? ==> s.wrap.Gzip?
  {
  }

  lemma RawHasNoHeader(s: DeflateState)
    requires 8 <= s.wBits <= 15 && s.wrap.Raw? && s.status.BusyState? && s.header == []
    ensures Progress(s)
  {
  }

  /** Whatever has been put is a prefix of the one-shot header. */
  lemma ProgressIsPrefix(s: DeflateState)
    requires HeaderInv(s)
    ensures s.header <= FullHeader(s)
  {
    hide FixedPart, HeaderCheck, ExtraPart, Terminated, CString, Low, Short;
    if !s.status.InitState? && !s.status.GzipState? && !s.status.BusyState? && !s.status.FinishState? {
      var h := s.gzhead.value;
      UncheckedIsPrefix(s.gzhead, s.level, s.strategy);
      var fixed, extra := FixedPart(s.gzhead, s.level, s.strategy), ExtraPart(h);
      var name, comment := Terminated(h.name), Terminated(h.comment);
      if s.status.ExtraState? {
        PartIsPrefix(fixed, extra, s.gzindex, name);
      } else if s.status.NameState? {
        NameIndex(s);
        PartIsPrefix(fixed + extra, name, s.gzindex, comment);
      } else if s.status.CommentState? {
        NameIndex(s);
        PartIsPrefix(fixed + extra + name, comment, s.gzindex, []);
      }
    }
  }

  lemma NameIndex(s: DeflateState)
    requires HeaderInv(s) && (s.status.NameState? || s.status.CommentState?)
    ensures s.gzindex <= |Terminated(if s.status.NameState? then s.gzhead.value.name else s.gzhead.value.comment)|
  {
  }

  lemma PartIsPrefix(a: seq<byte>, b: seq<byte>, i: nat, c: seq<byte>)
    requires i <= |b|
    ensures a + b[..i] <= a + b <= a + b + c
  {
  }

  lemma UncheckedIsPrefix(h: Option<GzHeader>, level: nat, strategy: Strategy)
    requires h.Some?
    ensures Unchecked(h.value, level, strategy) <= GzipHeader(h, level, strategy)
  {
    hide Unchecked, HeaderCheck, Short;
  }
}
