/**
 * The text protocol of socket.c between the image daemon and its clients.
 * The daemon sends an image as `key=value` lines followed by "imdata=" and
 * the raw pixels; the client finds each key with `strstr`, reads the number
 * after its '=' with `strtol`, and takes the pixels that follow "imdata=".
 * Web clients get the same message behind an HTTP header, and can switch
 * the heater with a `heater=<n>` request.
 *
 * Socket buffers are strings of octets: every character of a message is
 * below 256. The host is little-endian, so a 16-bit pixel travels low byte
 * first. The `%g` text of the exposure time and its parse by `strtod` are
 * parameters.
 */
module Socket {
  import opened CStrings
  import opened ImFunctions

  /** Sizes of the request buffer and of the image buffer (socket.c:38-39). */
  const BUFLEN: nat := 10240
  const BUFLEN10: nat := 1048576

  /*************************** key=value parsing ***************************/

  /** The first occurrence of `par` at `f` is directly followed by '='. */
  predicate FollowedByEq(s: string, par: string, f: nat)
  {
    f + |par| < |s| && s[f + |par|] == '='
  }

  /**
   * `findpar`: the index just past "par=" when the first occurrence of
   * `par` in the C string is followed by '='. A later "par=" is never seen,
   * and the match is a plain substring match.
   */
  function FindPar(str: string, par: string): (r: Option<nat>)
    ensures r.Some? ==> |par| + 1 <= r.value <= |CStr(str)|
    ensures r.Some? ==> Find(CStr(str), par) == Some(r.value - |par| - 1)
    ensures r.Some? ==> CStr(str)[r.value - 1] == '='
    ensures r.None? <==> Find(CStr(str), par).None? || !FollowedByEq(CStr(str), par, Find(CStr(str), par).value)
  {
    var s := CStr(str);
    match Find(s, par)
    case None => None
    case Some(f) => if FollowedByEq(s, par, f) then Some(f + |par| + 1) else None
  }

  /**
   * `getintpar`: the number after "par=", None when the key is missing or
   * no number follows its '='.
   */
  function GetIntPar(str: string, par: string): (r: Option<int>)
    ensures FindPar(str, par).None? ==> r.None?
    ensures r.Some? ==> StrToL(CStr(str)[FindPar(str, par).value..]).1 > 0
    ensures r.Some? ==> r.value == StrToL(CStr(str)[FindPar(str, par).value..]).0
    ensures FindPar(str, par).Some? && StrToL(CStr(str)[FindPar(str, par).value..]).1 > 0 ==>
      r == Some(StrToL(CStr(str)[FindPar(str, par).value..]).0)
  {
    match FindPar(str, par)
    case None => None
    case Some(p) =>
      var s := CStr(str);
      var (v, n) := StrToL(s[p..]);
      if n == 0 || p == |s| then None else Some(v)
  }

  /** What `*ret` holds after `getintpar`: the value read, or the old value. */
  function ValueOr<T>(old_: T, r: Option<T>): (v: T)
    ensures r.None? ==> v == old_
    ensures r.Some? ==> v == r.value
  {
    if r.Some? then r.value else old_
  }

  /** A value read into an `int` field: wrapped to 32 bits. */
  function Int32Of(r: Option<int>): (w: Option<int>)
    ensures w.Some? <==> r.Some?
    ensures w.Some? ==> -0x8000_0000 <= w.value < 0x8000_0000 && Int32(w.value) == w.value
  {
    if r.Some? then Some(Int32(r.value)) else None
  }

  /** A value read into a `size_t` field: wrapped to 64 bits. */
  function SizeTOf(r: Option<int>): (w: Option<nat>)
    ensures w.Some? <==> r.Some?
    ensures w.Some? ==> w.value < TWO64
  {
    if r.Some? then Some(SizeT(r.value)) else None
  }

  /** The first occurrence of `par` directly followed by '=' is where `findpar` stops. */
  lemma FindParAt(str: string, par: string, k: nat)
    requires Find(CStr(str), par) == Some(k)
    requires k + |par| < |CStr(str)| && CStr(str)[k + |par|] == '='
    ensures FindPar(str, par) == Some(k + |par| + 1)
  {
    assert FollowedByEq(CStr(str), par, k);
  }

  /** A decimal number right after "par=" is what `getintpar` reads. */
  lemma GetIntParAt(str: string, par: string, p: nat, v: int, rest: string)
    requires FindPar(str, par) == Some(p) && FitsLong(v)
    requires CStr(str)[p..] == IntToDec(v) + rest
    requires rest != [] && rest[0] == '\n'
    ensures GetIntPar(str, par) == Some(v)
  {
    StrToLDec(v, rest);
  }

  /** A key that is present with a number after its '=' is read back. */
  lemma GetIntParReads(str: string, par: string, k: nat, v: int, rest: string)
    requires Find(CStr(str), par) == Some(k)
    requires k + |par| <= |CStr(str)|
    requires CStr(str)[k + |par|..] == "=" + IntToDec(v) + rest
    requires rest != [] && rest[0] == '\n' && FitsLong(v)
    ensures GetIntPar(str, par) == Some(v)
  {
    var s := CStr(str);
    var t := s[k + |par|..];
    var u := "=" + IntToDec(v) + rest;
    assert t == u;
    assert u[0] == '=' && u[1..] == IntToDec(v) + rest;
    FindParAt(str, par, k);
    assert s[k + |par| + 1..] == t[1..];
    GetIntParAt(str, par, k + |par| + 1, v, rest);
  }

  /*************************** stringscan ***************************/

  /** The characters `stringscan` skips after the needle ('\r' is listed twice there). */
  predicate IsSkip(c: char)
  {
    c == ' ' || c == '\r' || c == '\t'
  }

  /** The first index from `i` on that holds no skip character, or |s|. */
  function SkipFrom(s: string, i: nat): (j: nat)
    requires i <= |s|
    ensures i <= j <= |s|
    ensures forall k :: i <= k < j ==> IsSkip(s[k])
    ensures j < |s| ==> !IsSkip(s[j])
    decreases |s| - i
  {
    if i < |s| && IsSkip(s[i]) then SkipFrom(s, i + 1) else i
  }

  /**
   * Where the word `stringscan` returns starts in the C string `s`: after
   * the first occurrence of `needle` and the skip characters behind it;
   * None when the needle is missing or only skip characters follow it.
   */
  function ScanStart(s: string, needle: string): (r: Option<nat>)
    ensures r.Some? ==> Find(s, needle).Some? && Find(s, needle).value + |needle| <= r.value < |s|
    ensures r.Some? ==> !IsSkip(s[r.value])
    ensures r.Some? ==> forall k :: Find(s, needle).value + |needle| <= k < r.value ==> IsSkip(s[k])
    ensures r.None? <==>
      (Find(s, needle).None? ||
       forall k :: Find(s, needle).value + |needle| <= k < |s| ==> IsSkip(s[k]))
  {
    match Find(s, needle)
    case None => None
    case Some(a) =>
      var b := SkipFrom(s, a + |needle|);
      if b >= |s| then None else Some(b)
  }

  /** The word `stringscan` returns: from its start up to the next space. */
  function WordAt(s: string, a: nat): (w: string)
    requires a <= |s|
    ensures w <= s[a..]
    ensures ' ' !in w
    ensures a + |w| < |s| ==> s[a + |w|] == ' '
  {
    match IndexOf(s[a..], ' ')
    case None => s[a..]
    case Some(e) => s[a..a + e]
  }

  /**
   * The buffer after `stringscan` and the word start it returns: the
   * start of the word after the needle, with a NUL written over the first
   * space after that word.
   */
  function Scan(b: string, needle: string): (r: (string, Option<nat>))
    ensures |r.0| == |b|
    ensures r.1 == ScanStart(CStr(b), needle)
    ensures r.1.Some? ==> r.1.value < |CStr(b)|
  {
    var s := CStr(b);
    match ScanStart(s, needle)
    case None => (b, None)
    case Some(a) =>
      var w := WordAt(s, a);
      if a + |w| < |s| then (b[a + |w| := NUL], Some(a)) else (b, Some(a))
  }

  /** `stringscan` on a NUL-terminated buffer, in place. */
  method StringScan(str: array<char>, needle: string) returns (a: Option<nat>)
    modifies str
    ensures (str[..], a) == Scan(old(str[..]), needle)
  {
    ghost var b := str[..];
    var s := CStr(str[..]);
    a := WordStart(s, needle);
    if a.None? {
      assert Scan(b, needle) == (b, None);
    } else {
      var e := IndexOf(s[a.value..], ' ');
      if e.Some? {
        ScanWrites(b, needle, a.value, e.value);
        str[a.value + e.value] := NUL;
        assert str[..] == b[a.value + e.value := NUL];
      } else {
        ScanKeeps(b, needle, a.value);
      }
    }
  }

  lemma ScanWrites(b: string, needle: string, a: nat, e: nat)
    requires ScanStart(CStr(b), needle) == Some(a)
    requires IndexOf(CStr(b)[a..], ' ') == Some(e)
    ensures a + e < |CStr(b)|
    ensures Scan(b, needle) == (b[a + e := NUL], Some(a))
  {
    var s := CStr(b);
    var w := WordAt(s, a);
    assert w == s[a..a + e];
    assert |w| == e && a + e < |s|;
    assert Scan(b, needle) == (b[a + |w| := NUL], Some(a));
  }

  lemma ScanKeeps(b: string, needle: string, a: nat)
    requires ScanStart(CStr(b), needle) == Some(a)
    requires IndexOf(CStr(b)[a..], ' ').None?
    ensures Scan(b, needle) == (b, Some(a))
  {
    assert WordAt(CStr(b), a) == CStr(b)[a..];
  }

  /** The search part of `stringscan`: find the needle, then skip blanks. */
  method WordStart(s: string, needle: string) returns (a: Option<nat>)
    ensures a == ScanStart(s, needle)
  {
    var end := |s|;
    var f := Find(s, needle);
    if f.None? {
      return None;
    }
    var i := f.value + |needle|;
    while i < end && (s[i] == ' ' || s[i] == '\r' || s[i] == '\t')
      invariant f.value + |needle| <= i <= end
      invariant SkipFrom(s, f.value + |needle|) == SkipFrom(s, i)
    {
      i := i + 1;
    }
    if i >= end {
      return None;
    }
    return Some(i);
  }

  /** A NUL right after a NUL-free word ends the C string there. */
  lemma CStrTerminated(w: string, t: string)
    requires NUL !in w
    requires t == [] || t[0] == NUL
    ensures CStr(w + t) == w
  {
    CStrAppend(w, t);
    assert CStr(t) == [];
    assert w + [] == w;
  }

  /** A piece of a NUL-free string is NUL-free. */
  lemma NoNulInSlice(s: string, a: nat, b: nat)
    requires a <= b <= |s| && NUL !in s
    ensures NUL !in s[a..b]
  {
    forall j | 0 <= j < b - a ensures s[a..b][j] != NUL {
      assert s[a..b][j] == s[a + j];
    }
  }

  /** After `stringscan`, the C string at the returned start is exactly the word. */
  lemma ScannedWordIsCString(buf: string, a: nat)
    requires a < |CStr(buf)|
    ensures var s := CStr(buf);
            var w := WordAt(s, a);
            CStr((if a + |w| < |s| then buf[a + |w| := NUL] else buf)[a..]) == w
  {
    var s := CStr(buf);
    var w := WordAt(s, a);
    var e := a + |w|;
    assert w == s[a..e];
    NoNulInSlice(s, a, e);
    if e < |s| {
      var b := buf[e := NUL];
      assert b[a..] == w + b[e..] by {
        assert s == buf[..|s|];
      }
      CStrTerminated(w, b[e..]);
    } else {
      assert buf[a..] == w + buf[|s|..] by {
        assert s == buf[..|s|];
      }
      CStrTerminated(w, buf[|s|..]);
    }
  }

  /*************************** the image message ***************************/

  /** One `PUT` line: the key, '=', the value in decimal, a newline. */
  function Line(key: string, v: int): string
  {
    key + "=" + IntToDec(v) + "\n"
  }

  /** `sizeof(uint16_t) * n` bytes hold n pixels, low byte first. */
  function PixelBytes(px: seq<uint16>): (b: string)
    ensures |b| == 2 * |px|
    ensures forall c :: c in b ==> c as int < 256
  {
    seq(2 * |px|, k requires 0 <= k < 2 * |px| =>
      if k % 2 == 0 then (px[k / 2] % 256) as char else (px[k / 2] / 256) as char)
  }

  /** The octet a received character stands for. */
  function Octet(c: char): (o: nat)
    ensures o < 256
  {
    c as int % 256
  }

  /** The first n pixels of a received byte string, read low byte first. */
  function DecodePixels(b: string, n: nat): (px: seq<uint16>)
    requires 2 * n <= |b|
    ensures |px| == n
  {
    seq(n, i requires 0 <= i < n => Octet(b[2 * i]) + 256 * Octet(b[2 * i + 1]))
  }

  /** The two bytes of pixel i are its low and its high octet. */
  lemma PixelBytesAt(px: seq<uint16>, i: nat)
    requires i < |px|
    ensures PixelBytes(px)[2 * i] as int == px[i] % 256
    ensures PixelBytes(px)[2 * i + 1] as int == px[i] / 256
  {
    var k := 2 * i;
    assert k % 2 == 0 && k / 2 == i;
    assert (k + 1) % 2 == 1 && (k + 1) / 2 == i;
  }

  /** Pixels survive the trip through the byte buffer. */
  lemma DecodePixelBytes(px: seq<uint16>)
    ensures DecodePixels(PixelBytes(px), |px|) == px
  {
    var b := PixelBytes(px);
    var d := DecodePixels(b, |px|);
    forall i | 0 <= i < |px|
      ensures d[i] == px[i]
    {
      PixelBytesAt(px, i);
      assert Octet(b[2 * i]) == px[i] % 256;
      assert Octet(b[2 * i + 1]) == px[i] / 256;
    }
  }

  /** The metadata lines need a subframe when binning is 0xff. */
  predicate Sendable(img: ImStorage)
  {
    img.imdata.Some? && img.Area() <= |img.imdata.value| &&
    (img.binning == 0xff ==> img.subframe.Some?)
  }

  /** The lines describing the subframe, present when binning is 0xff. */
  function SubframeLinesAsWritten(img: ImStorage): string
    requires Sendable(img)
  {
    if img.binning == 0xff then
      var f := img.subframe.value;
      Line("subX", f.xstart) + Line("subY", f.xstart) + Line("subS", f.size)
    else ""
  }

  /** The lines after the exposure time: type, size and the start of the exposure `ex`. */
  function TailLines(img: ImStorage, ex: int): string
  {
    Line("imtype", Int32(img.imtype)) + Line("imW", Int32(img.W)) + Line("imH", Int32(img.H))
    + Line("exposetime", ex)
  }

  /**
   * The metadata `send_ima` writes as the code stands: "subY" carries the
   * X start, and every value goes through an `(int)` cast, the start time
   * of the exposure included.
   */
  function MetaAsWritten(img: ImStorage, gtext: string): (m: string)
    requires Sendable(img)
    ensures ((img.binning == 0xff ==> img.subframe.value.xstart == img.subframe.value.ystart) &&
             Int32(img.exposetime) == img.exposetime)
            ==> m == Meta(img, gtext)
  {
    Line("binning", Int32(img.binning)) + SubframeLinesAsWritten(img) + ("exptime=" + gtext + "\n")
    + TailLines(img, Int32(img.exposetime))
  }

  /** The image message as the code sends it: the metadata as written, "imdata=", then W*H pixels. */
  function ImageMessageAsWritten(img: ImStorage, gtext: string): (m: string)
    requires Sendable(img)
    ensures |m| == |MetaAsWritten(img, gtext)| + 7 + 2 * (img.Area())
  {
    MetaAsWritten(img, gtext) + "imdata=" + PixelBytes(img.imdata.value[..img.Area()])
  }

  /** The subframe lines with "subY" carrying the Y start. */
  function SubframeLines(img: ImStorage): string
    requires Sendable(img)
  {
    if img.binning == 0xff then
      var f := img.subframe.value;
      Line("subX", f.xstart) + Line("subY", f.ystart) + Line("subS", f.size)
    else ""
  }

  /** The metadata as intended: the Y start under "subY" and the whole start time. */
  function Meta(img: ImStorage, gtext: string): string
    requires Sendable(img)
  {
    Line("binning", Int32(img.binning)) + SubframeLines(img) + ("exptime=" + gtext + "\n") + TailLines(img, img.exposetime)
  }

  /** The whole image message: metadata, "imdata=", then W*H pixels. */
  function ImageMessage(img: ImStorage, gtext: string): (m: string)
    requires Sendable(img)
    ensures |m| == |Meta(img, gtext)| + 7 + 2 * (img.Area())
  {
    Meta(img, gtext) + "imdata=" + PixelBytes(img.imdata.value[..img.Area()])
  }

  /** The HTTP header `addwebhdr` puts in front of a reply of `contlen` bytes. */
  function WebHeader(conttype: string, contlen: nat): (h: string)
    ensures var n := NatToDec(contlen); |h| >= |n| + 4 && h[|h| - |n| - 4..] == n + "\r\n\r\n"
  {
    "HTTP/2.0 200 OK\r\n"
    + "Access-Control-Allow-Origin: *\r\n"
    + "Access-Control-Allow-Methods: GET, POST\r\n"
    + "Access-Control-Allow-Credentials: true\r\n"
    + "Content-type: " + conttype + "\r\nContent-Length: " + NatToDec(contlen) + "\r\n\r\n"
  }

  /**
   * The `PUT` lines of `send_ima`, each one taken off the room left in the
   * image buffer.
   */
  method PutMeta(stored: ImStorage, gtext: string) returns (buf: string, rest: int)
    requires Sendable(stored)
    ensures buf == MetaAsWritten(stored, gtext)
    ensures rest == BUFLEN10 - |buf|
  {
    rest := BUFLEN10;
    buf := Line("binning", Int32(stored.binning));
    rest := rest - |buf|;
    if stored.binning == 0xff {
      var f := stored.subframe.value;
      var line := Line("subX", f.xstart);
      buf, rest := buf + line, rest - |line|;
      line := Line("subY", f.xstart);
      buf, rest := buf + line, rest - |line|;
      line := Line("subS", f.size);
      buf, rest := buf + line, rest - |line|;
    }
    assert buf == Line("binning", Int32(stored.binning)) + SubframeLinesAsWritten(stored);
    var line := "exptime=" + gtext + "\n";
    buf, rest := buf + line, rest - |line|;
    ghost var head := buf;
    line := Line("imtype", Int32(stored.imtype));
    buf, rest := buf + line, rest - |line|;
    ghost var tail := line;
    line := Line("imW", Int32(stored.W));
    buf, rest := buf + line, rest - |line|;
    AppendAssoc(head, tail, line);
    tail := tail + line;
    line := Line("imH", Int32(stored.H));
    buf, rest := buf + line, rest - |line|;
    AppendAssoc(head, tail, line);
    tail := tail + line;
    line := Line("exposetime", Int32(stored.exposetime));
    buf, rest := buf + line, rest - |line|;
    AppendAssoc(head, tail, line);
    tail := tail + line;
    assert tail == TailLines(stored, Int32(stored.exposetime));
  }

  /**
   * `send_ima`: fill the image buffer with the message and write it, behind
   * a web header for web clients. `hdrOk` and `dataOk` are the outcomes of
   * the two writes; `out` is what reached the socket. The buffer is refused
   * when the pixels do not fit behind the metadata.
   */
  method SendIma(stored: ImStorage, webquery: bool, gtext: string, hdrOk: bool, dataOk: bool)
    returns (r: int, out: string)
    requires Sendable(stored)
    requires 2 * (stored.Area()) < 0x8000_0000
    requires |MetaAsWritten(stored, gtext)| + 7 <= BUFLEN10
    ensures var fits := |ImageMessageAsWritten(stored, gtext)| <= BUFLEN10;
            r == (if fits && (webquery ==> hdrOk) && dataOk then 1 else 0)
    ensures r == 1 ==>
      var m := ImageMessageAsWritten(stored, gtext);
      out == (if webquery then WebHeader("multipart/form-data", |m|) else []) + m
    ensures r == 0 ==>
      out == [] || (webquery && out == WebHeader("multipart/form-data", |ImageMessageAsWritten(stored, gtext)|))
  {
    var imS := stored.Area() * 2;
    var buf, rest := PutMeta(stored, gtext);
    ghost var meta := buf;
    buf, rest := buf + "imdata=", rest - 7;
    ghost var m := ImageMessageAsWritten(stored, gtext);
    assert |m| == |meta| + 7 + imS;
    if rest < imS {
      return 0, [];
    }
    buf := buf + PixelBytes(stored.imdata.value[..stored.Area()]);
    rest := rest - imS;
    var send := BUFLEN10 - rest;
    assert buf == m;
    out := [];
    if webquery {
      if !hdrOk {
        return 0, [];
      }
      out := WebHeader("multipart/form-data", send);
    }
    if !dataOk {
      return 0, out;
    }
    out := out + buf;
    return 1, out;
  }

  /*************************** get_imstorage ***************************/

  /** Conversions of a `long` to the subframe's `uint16_t` and `uint8_t` fields. */
  function Uint16(v: int): (r: nat)
    ensures r < 0x1_0000 && (0 <= v < 0x1_0000 ==> r == v)
  {
    v % 0x1_0000
  }

  function Uint8(v: int): (r: nat)
    ensures r < 0x100 && (0 <= v < 0x100 ==> r == v)
  {
    v % 0x100
  }

  /**
   * The subframe `get_imstorage` fills for binning 0xff: each field read is
   * truncated to its width, and a missing key leaves what the stack held
   * (`stale`).
   */
  function ReadSubframe(buf: string, stale: Subframe): (f: Subframe)
    ensures GetIntPar(buf, "subX").Some? ==> f.xstart == Uint16(GetIntPar(buf, "subX").value)
    ensures GetIntPar(buf, "subY").Some? ==> f.ystart == Uint16(GetIntPar(buf, "subY").value)
    ensures GetIntPar(buf, "subS").Some? ==> f.size == Uint8(GetIntPar(buf, "subS").value)
    ensures GetIntPar(buf, "subX").None? ==> f.xstart == stale.xstart
    ensures GetIntPar(buf, "subY").None? ==> f.ystart == stale.ystart
    ensures GetIntPar(buf, "subS").None? ==> f.size == stale.size
  {
    var x := GetIntPar(buf, "subX");
    var y := GetIntPar(buf, "subY");
    var s := GetIntPar(buf, "subS");
    Subframe(if x.Some? then Uint16(x.value) else stale.xstart,
             if y.Some? then Uint16(y.value) else stale.ystart,
             if s.Some? then Uint8(s.value) else stale.size)
  }

  /** The metadata part of `get_imstorage`: each key found overrides its field. */
  function ReadMeta(img: ImStorage, buf: string, exptimeRead: Option<real>, stale: Subframe): (r: ImStorage)
    ensures r.st == img.st && r.imname == img.imname && r.imformat == img.imformat
    ensures r.timestamp == img.timestamp && r.once == img.once && r.imdata == img.imdata
    ensures r.binning == ValueOr(img.binning, Int32Of(GetIntPar(buf, "binning")))
    ensures r.subframe.Some? <==> GetIntPar(buf, "binning") == Some(0xff)
    ensures r.subframe.Some? ==> r.subframe.value == ReadSubframe(buf, stale)
    ensures r.imtype == ValueOr(img.imtype, Int32Of(GetIntPar(buf, "imtype")))
    ensures r.W == ValueOr(img.W, SizeTOf(GetIntPar(buf, "imW")))
    ensures r.H == ValueOr(img.H, SizeTOf(GetIntPar(buf, "imH")))
    ensures r.exposetime == ValueOr(img.exposetime, GetIntPar(buf, "exposetime"))
    ensures r.exptime == (if exptimeRead.Some? then exptimeRead.value else img.exptime)
  {
    var bin := GetIntPar(buf, "binning");
    img.(binning := ValueOr(img.binning, Int32Of(bin)),
         subframe := if bin == Some(0xff) then Some(ReadSubframe(buf, stale)) else None,
         exptime := if exptimeRead.Some? then exptimeRead.value else img.exptime,
         imtype := ValueOr(img.imtype, Int32Of(GetIntPar(buf, "imtype"))),
         W := ValueOr(img.W, SizeTOf(GetIntPar(buf, "imW"))),
         H := ValueOr(img.H, SizeTOf(GetIntPar(buf, "imH"))),
         exposetime := ValueOr(img.exposetime, GetIntPar(buf, "exposetime")))
  }

  /**
   * `get_imstorage` on the `L == |buf|` bytes received. The record is updated
   * in place, so the record after the call is returned beside the verdict
   * (the non-NULL return). The pixels start after "imdata="; the message is
   * refused when that key is missing or fewer than W*H*2 bytes follow it.
   * `exptimeRead` is what `getdpar` made of the exposure time.
   */
  function GetImStorage(img: ImStorage, buf: string, exptimeRead: Option<real>, stale: Subframe)
    : (r: (ImStorage, bool))
    ensures FindPar(buf, "imdata").None? ==> !r.1
    ensures r.1 ==> var m := ReadMeta(img, buf, exptimeRead, stale);
      var p := FindPar(buf, "imdata").value;
      p + SizeT(m.Area() * 2) <= |buf| &&
      r.0 == m.(imdata := Some(DecodePixels(buf[p..], SizeT(m.Area() * 2) / 2)))
    ensures FindPar(buf, "imdata").Some? && !r.1 ==>
      var m := ReadMeta(img, buf, exptimeRead, stale);
      FindPar(buf, "imdata").value + SizeT(m.Area() * 2) > |buf|
    ensures FindPar(buf, "imdata").None? ==> r.0 == ReadMeta(img, buf, exptimeRead, stale)
    ensures r.0.(imdata := img.imdata) == ReadMeta(img, buf, exptimeRead, stale)
  {
    var m := ReadMeta(img, buf, exptimeRead, stale);
    match FindPar(buf, "imdata")
    case None => (m, false)
    case Some(p) =>
      var datasz := SizeT(m.Area() * 2);
      var avail := |buf| - p;
      if datasz > avail then (m.(imdata := Some(DecodePixels(buf[p..], avail / 2))), false)
      else (m.(imdata := Some(DecodePixels(buf[p..], datasz / 2))), true)
  }

  /*************************** heater command ***************************/

  datatype HeaterCmd = HeaterOn | HeaterOff

  /** `heater=0` switches the heater off, any other number on. */
  function HeaterAction(htr: int): (c: HeaterCmd)
    ensures c == HeaterOff <==> htr == 0
  {
    if htr == 0 then HeaterOff else HeaterOn
  }

  /** The 12-byte reply body naming the new heater state. */
  function HeaterBody(htr: int): string
  {
    "HEATER " + (if htr != 0 then "ON " else "OFF") + "\r\n"
  }

  /** The whole reply to a heater command. */
  function HeaterReply(htr: int): string
  {
    WebHeader("text/html", 12) + HeaterBody(htr)
  }

  /** The body is exactly as long as the declared Content-Length, in both states. */
  lemma HeaterBodyMatchesLength(htr: int)
    ensures |HeaterBody(htr)| == 12
    ensures HeaterReply(htr)[|WebHeader("text/html", 12)|..] == HeaterBody(htr)
    ensures HeaterBody(htr)[7..10] == (if HeaterAction(htr) == HeaterOn then "ON " else "OFF")
  {
    var h := WebHeader("text/html", 12);
    assert (h + HeaterBody(htr))[|h|..] == HeaterBody(htr);
  }
}
