/**
 * What a client recovers from an image message of the daemon: `get_imstorage`
 * applied to the bytes `send_ima` produced. Every key is found at its own
 * line because one of its characters occurs nowhere before it, and every
 * number is read back by `strtol`. The same reasoning on the message as the
 * code writes it shows what the client loses there.
 */
module WireRoundTrip {
  import opened CStrings
  import opened ImFunctions
  import opened Socket

  /** The characters `%g` can produce for a finite or infinite `double`. */
  const GChars: string := "0123456789+-.einfa"

  predicate GText(g: string)
  {
    forall c :: c in g ==> c in GChars
  }

  /** A value that an `int` holds unchanged. */
  predicate FitsInt(v: int)
  {
    -0x8000_0000 <= v < 0x8000_0000
  }

  /**
   * The images that survive the trip: sendable, with the `int` fields in
   * range, the sizes below 2^31, the start of the exposure within a `long`
   * and the subframe in the widths of its fields.
   */
  predicate Transmittable(img: ImStorage, gtext: string)
  {
    Sendable(img) && GText(gtext) && NUL !in gtext &&
    FitsInt(img.binning) && FitsInt(img.imtype) &&
    img.W < 0x8000_0000 && img.H < 0x8000_0000 && 2 * (img.Area()) < 0x8000_0000 &&
    FitsLong(img.exposetime) &&
    (img.binning == 0xff ==>
      0 <= img.subframe.value.xstart < 0x1_0000 && 0 <= img.subframe.value.ystart < 0x1_0000 &&
      0 <= img.subframe.value.size < 0x100)
  }

  /*************************** the shape of a message ***************************/

  /** The subframe lines with the value sent under "subY" as a parameter. */
  function SubWith(img: ImStorage, sy: int): string
    requires Sendable(img)
  {
    if img.binning == 0xff then
      var f := img.subframe.value;
      Line("subX", f.xstart) + Line("subY", sy) + Line("subS", f.size)
    else ""
  }

  /** The metadata with the values sent under "subY" and "exposetime" as parameters. */
  function MetaWith(img: ImStorage, gtext: string, sy: int, ex: int): string
    requires Sendable(img)
  {
    Line("binning", Int32(img.binning)) + SubWith(img, sy) + ("exptime=" + gtext + "\n") + TailLines(img, ex)
  }

  /** The metadata the daemon sends is of that shape. */
  lemma MetaShape(img: ImStorage, gtext: string)
    requires Sendable(img)
    ensures Meta(img, gtext) ==
      MetaWith(img, gtext, if img.binning == 0xff then img.subframe.value.ystart else 0, img.exposetime)
  {
  }

  /** So is the metadata as the code writes it, with the X start under "subY" and a wrapped start time. */
  lemma MetaAsWrittenShape(img: ImStorage, gtext: string)
    requires Sendable(img)
    ensures MetaAsWritten(img, gtext) ==
      MetaWith(img, gtext, if img.binning == 0xff then img.subframe.value.xstart else 0, Int32(img.exposetime))
  {
  }


  /** A line holds only its key's characters, '=', digits, '-' and a newline. */
  lemma LineAvoids(key: string, v: int, c: char)
    requires c !in key && c != '=' && c != '\n' && c != '-' && !IsDigit(c)
    ensures c !in Line(key, v)
  {
    assert Line(key, v) == key + "=" + IntToDec(v) + "\n";
  }

  /** A character outside the keys and `%g` text is not in the metadata. */
  lemma MetaAvoids(img: ImStorage, gtext: string, sy: int, ex: int, c: char)
    requires Sendable(img) && GText(gtext)
    requires c !in GChars && c != '=' && c != '\n' && c != '-' && !IsDigit(c)
    requires c !in "binning" && c !in "subX" && c !in "subY" && c !in "subS" && c !in "exptime="
    requires c !in "imtype" && c !in "imW" && c !in "imH" && c !in "exposetime"
    ensures c !in MetaWith(img, gtext, sy, ex)
  {
    LineAvoids("binning", Int32(img.binning), c);
    if img.binning == 0xff {
      LineAvoids("subX", img.subframe.value.xstart, c);
      LineAvoids("subY", sy, c);
      LineAvoids("subS", img.subframe.value.size, c);
    }
    LineAvoids("imtype", Int32(img.imtype), c);
    LineAvoids("imW", Int32(img.W), c);
    LineAvoids("imH", Int32(img.H), c);
    LineAvoids("exposetime", ex, c);
  }

  /*************************** reading one key ***************************/

  /**
   * A line whose key holds a character found neither before the line nor
   * earlier in the key is the one `getintpar` reads.
   */
  lemma KeyRead(str: string, pre: string, key: string, q: nat, v: int)
    requires pre + Line(key, v) <= CStr(str) && FitsLong(v)
    requires q < |key| && key[q] !in pre && key[q] !in key[..q]
    ensures GetIntPar(str, key) == Some(v)
  {
    var s := CStr(str);
    var k := |pre|;
    var post := s[k + |Line(key, v)|..];
    var tail := "=" + IntToDec(v) + ("\n" + post);
    LineSplit(s, pre, key, v);
    Slices(s, pre, key, tail, q);
    NoEarlierOccurrence(s, key, k, q);
    FindFirst(s, key, k);
    GetIntParReads(str, key, k, v, "\n" + post);
  }

  /** A string that starts with a head and a line is the head, the key and the rest of the line. */
  lemma LineSplit(s: string, pre: string, key: string, v: int)
    requires pre + Line(key, v) <= s
    ensures var post := s[|pre| + |Line(key, v)|..];
            s == pre + key + ("=" + IntToDec(v) + ("\n" + post))
  {
    var d := IntToDec(v);
    var n := |pre| + |Line(key, v)|;
    var post := s[n..];
    assert s == s[..n] + post;
    assert s[..n] == pre + Line(key, v);
    assert Line(key, v) + post == key + ("=" + d + ("\n" + post));
  }

  /** The pieces of a string made of a head, a key and a tail. */
  lemma Slices(s: string, pre: string, key: string, tail: string, q: nat)
    requires s == pre + key + tail && q <= |key|
    ensures s[|pre|..|pre| + |key|] == key
    ensures s[..|pre| + q] == pre + key[..q]
    ensures s[|pre| + |key|..] == tail
  {
  }

  /** The C string of a message: the metadata, "imdata=" and the pixels up to a zero byte. */
  lemma MessageCString(meta: string, pixels: string)
    requires NUL !in meta
    ensures CStr(meta + "imdata=" + pixels) == meta + "imdata=" + CStr(pixels)
  {
    assert NUL !in meta + "imdata=";
    CStrAppend(meta + "imdata=", pixels);
  }

  /** A prefix of the metadata is a prefix of the C string of the message. */
  lemma MetaPrefix(meta: string, p: string, pixels: string)
    requires NUL !in meta && p <= meta
    ensures p <= CStr(meta + "imdata=" + pixels)
  {
    MessageCString(meta, pixels);
    assert meta <= meta + "imdata=" + CStr(pixels);
  }

  /*************************** prefixes ***************************/

  lemma DropPrefix(a: string, b: string)
    ensures (a + b)[|a|..] == b
  {
  }

  lemma PrefixUnder(h: string, p: string, t: string)
    requires p <= t
    ensures h + p <= h + t
  {
    assert t == p + t[|p|..];
    AppendAssoc(h, p, t[|p|..]);
  }

  /*************************** the fields ***************************/

  /** The message with the metadata of the given shape. */
  function MessageWith(img: ImStorage, gtext: string, sy: int, ex: int, pixels: string): string
    requires Sendable(img)
  {
    MetaWith(img, gtext, sy, ex) + "imdata=" + pixels
  }

  lemma MetaNulFree(img: ImStorage, gtext: string, sy: int, ex: int)
    requires Sendable(img) && GText(gtext)
    ensures NUL !in MetaWith(img, gtext, sy, ex)
  {
    MetaAvoids(img, gtext, sy, ex, NUL);
  }

  /** A line of the metadata whose key's character does not occur before it is read. */
  lemma ReadsMetaLine(img: ImStorage, gtext: string, sy: int, ex: int, pixels: string,
                      before: string, key: string, q: nat, v: int, after: string)
    requires Sendable(img) && GText(gtext)
    requires MetaWith(img, gtext, sy, ex) == before + Line(key, v) + after && FitsLong(v)
    requires q < |key| && key[q] !in before && key[q] !in key[..q]
    ensures GetIntPar(MessageWith(img, gtext, sy, ex, pixels), key) == Some(v)
  {
    MetaNulFree(img, gtext, sy, ex);
    MetaPrefix(MetaWith(img, gtext, sy, ex), before + Line(key, v), pixels);
    KeyRead(MessageWith(img, gtext, sy, ex, pixels), before, key, q, v);
  }

  /** "binning" is the first line. */
  lemma ReadsBinning(img: ImStorage, gtext: string, sy: int, ex: int, pixels: string)
    requires Sendable(img) && GText(gtext)
    ensures GetIntPar(MessageWith(img, gtext, sy, ex, pixels), "binning") == Some(Int32(img.binning))
  {
    var a := Line("binning", Int32(img.binning));
    var sub := SubWith(img, sy);
    var c := "exptime=" + gtext + "\n";
    var rest := sub + c + TailLines(img, ex);
    AppendAssoc(a, sub, c);
    AppendAssoc(a, sub + c, TailLines(img, ex));
    assert [] + a == a;
    ReadsMetaLine(img, gtext, sy, ex, pixels, [], "binning", 0, Int32(img.binning), rest);
  }

  /** With binning 0xff the metadata opens with the binning and the three subframe lines. */
  lemma SubframeLayout(img: ImStorage, gtext: string, sy: int, ex: int)
    requires Sendable(img) && img.binning == 0xff
    ensures var f := img.subframe.value;
      var a := Line("binning", Int32(img.binning));
      var lx := Line("subX", f.xstart);
      var ly := Line("subY", sy);
      var ls := Line("subS", f.size);
      var rest := ("exptime=" + gtext + "\n") + TailLines(img, ex);
      MetaWith(img, gtext, sy, ex) == a + lx + (ly + ls + rest) &&
      MetaWith(img, gtext, sy, ex) == (a + lx) + ly + (ls + rest) &&
      MetaWith(img, gtext, sy, ex) == (a + lx + ly) + ls + rest
  {
    var f := img.subframe.value;
    var a := Line("binning", Int32(img.binning));
    var lx := Line("subX", f.xstart);
    var ly := Line("subY", sy);
    var ls := Line("subS", f.size);
    var rest := ("exptime=" + gtext + "\n") + TailLines(img, ex);
    assert MetaWith(img, gtext, sy, ex) == a + (lx + ly + ls) + rest;
    AppendAssoc(a, lx + ly, ls);
    AppendAssoc(a, lx, ly);
    AppendAssoc(a + lx + ly, ls, rest);
    AppendAssoc(a + lx, ly, ls + rest);
    AppendAssoc(a + lx, ly, ls);
    AppendAssoc(a, lx, ly + ls + rest);
    AppendAssoc(ly, ls, rest);
  }

  lemma ReadsSubX(img: ImStorage, gtext: string, sy: int, ex: int, pixels: string)
    requires Sendable(img) && GText(gtext) && img.binning == 0xff && FitsLong(img.subframe.value.xstart)
    ensures GetIntPar(MessageWith(img, gtext, sy, ex, pixels), "subX") == Some(img.subframe.value.xstart)
  {
    var f := img.subframe.value;
    var a := Line("binning", Int32(img.binning));
    var rest := ("exptime=" + gtext + "\n") + TailLines(img, ex);
    SubframeLayout(img, gtext, sy, ex);
    SubKeyChar('X');
    LineAvoids("binning", Int32(img.binning), 'X');
    ReadsMetaLine(img, gtext, sy, ex, pixels, a, "subX", 3, f.xstart, Line("subY", sy) + Line("subS", f.size) + rest);
  }

  lemma ReadsSubY(img: ImStorage, gtext: string, sy: int, ex: int, pixels: string)
    requires Sendable(img) && GText(gtext) && img.binning == 0xff && FitsLong(sy)
    ensures GetIntPar(MessageWith(img, gtext, sy, ex, pixels), "subY") == Some(sy)
  {
    var f := img.subframe.value;
    var a := Line("binning", Int32(img.binning));
    var lx := Line("subX", f.xstart);
    var rest := ("exptime=" + gtext + "\n") + TailLines(img, ex);
    SubframeLayout(img, gtext, sy, ex);
    SubKeyChar('Y');
    LineAvoids("binning", Int32(img.binning), 'Y');
    LineAvoids("subX", f.xstart, 'Y');
    ReadsMetaLine(img, gtext, sy, ex, pixels, a + lx, "subY", 3, sy, Line("subS", f.size) + rest);
  }

  lemma ReadsSubS(img: ImStorage, gtext: string, sy: int, ex: int, pixels: string)
    requires Sendable(img) && GText(gtext) && img.binning == 0xff && FitsLong(img.subframe.value.size)
    ensures GetIntPar(MessageWith(img, gtext, sy, ex, pixels), "subS") == Some(img.subframe.value.size)
  {
    var f := img.subframe.value;
    var a := Line("binning", Int32(img.binning));
    var lx := Line("subX", f.xstart);
    var ly := Line("subY", sy);
    var rest := ("exptime=" + gtext + "\n") + TailLines(img, ex);
    SubframeLayout(img, gtext, sy, ex);
    SubKeyChar('S');
    LineAvoids("binning", Int32(img.binning), 'S');
    LineAvoids("subX", f.xstart, 'S');
    LineAvoids("subY", sy, 'S');
    ReadsMetaLine(img, gtext, sy, ex, pixels, a + lx + ly, "subS", 3, f.size, rest);
  }

  /** The characters that tell the subframe keys apart occur neither in "binning" nor in "sub". */
  lemma SubKeyChar(c: char)
    requires c == 'X' || c == 'Y' || c == 'S'
    ensures c != '=' && c != '\n' && c != '-' && !IsDigit(c) && c !in "binning" && c !in "sub"
    ensures "subX"[3] == 'X' && "subY"[3] == 'Y' && "subS"[3] == 'S'
    ensures "subX"[..3] == "sub" && "subY"[..3] == "sub" && "subS"[..3] == "sub"
  {
  }

  /** The characters that tell the last four keys apart occur in no line before them. */
  lemma TailKeyChar(c: char)
    requires c == 'y' || c == 'W' || c == 'H' || c == 'o'
    ensures c !in GChars && c != '=' && c != '\n' && c != '-' && !IsDigit(c)
    ensures c !in "binning" && c !in "subX" && c !in "subY" && c !in "subS" && c !in "exptime="
  {
  }

  /**
   * A line of the tail is read when its key's character occurs neither in
   * the key before it, nor in the lines of the tail before it, nor in the
   * lines up to the exposure time.
   */
  lemma ReadsTailLine(img: ImStorage, gtext: string, sy: int, ex: int, pixels: string,
                      before: string, key: string, q: nat, v: int, after: string)
    requires Sendable(img) && GText(gtext)
    requires TailLines(img, ex) == before + Line(key, v) + after && FitsLong(v)
    requires q < |key| && key[q] !in before && key[q] !in key[..q]
    requires key[q] !in GChars && key[q] != '=' && key[q] != '\n' && key[q] != '-' && !IsDigit(key[q])
    requires key[q] !in "binning" && key[q] !in "subX" && key[q] !in "subY" && key[q] !in "subS"
    requires key[q] !in "exptime="
    ensures GetIntPar(MessageWith(img, gtext, sy, ex, pixels), key) == Some(v)
  {
    var m := MetaWith(img, gtext, sy, ex);
    var head := Line("binning", Int32(img.binning)) + SubWith(img, sy) + ("exptime=" + gtext + "\n");
    var l := Line(key, v);
    MetaNulFree(img, gtext, sy, ex);
    HeadAvoids(img, gtext, sy, key[q]);
    assert m == head + (before + l + after);
    AppendAssoc(head, before + l, after);
    AppendAssoc(head, before, l);
    MetaPrefix(m, head + before + l, pixels);
    KeyRead(MessageWith(img, gtext, sy, ex, pixels), head + before, key, q, v);
  }

  lemma ReadsImtype(img: ImStorage, gtext: string, sy: int, ex: int, pixels: string)
    requires Sendable(img) && GText(gtext)
    ensures GetIntPar(MessageWith(img, gtext, sy, ex, pixels), "imtype") == Some(Int32(img.imtype))
  {
    var lt := Line("imtype", Int32(img.imtype));
    var lw := Line("imW", Int32(img.W));
    var lh := Line("imH", Int32(img.H));
    var le := Line("exposetime", ex);
    AppendAssoc(lt, lw, lh);
    AppendAssoc(lt, lw + lh, le);
    assert [] + lt == lt;
    TailKeyChar('y');
    ReadsTailLine(img, gtext, sy, ex, pixels, [], "imtype", 3, Int32(img.imtype), lw + lh + le);
  }

  lemma ReadsImW(img: ImStorage, gtext: string, sy: int, ex: int, pixels: string)
    requires Sendable(img) && GText(gtext)
    ensures GetIntPar(MessageWith(img, gtext, sy, ex, pixels), "imW") == Some(Int32(img.W))
  {
    var lt := Line("imtype", Int32(img.imtype));
    var lw := Line("imW", Int32(img.W));
    var lh := Line("imH", Int32(img.H));
    var le := Line("exposetime", ex);
    assert TailLines(img, ex) == lt + lw + (lh + le);
    LineAvoids("imtype", Int32(img.imtype), 'W');
    TailKeyChar('W');
    ReadsTailLine(img, gtext, sy, ex, pixels, lt, "imW", 2, Int32(img.W), lh + le);
  }

  lemma ReadsImH(img: ImStorage, gtext: string, sy: int, ex: int, pixels: string)
    requires Sendable(img) && GText(gtext)
    ensures GetIntPar(MessageWith(img, gtext, sy, ex, pixels), "imH") == Some(Int32(img.H))
  {
    var lt := Line("imtype", Int32(img.imtype));
    var lw := Line("imW", Int32(img.W));
    var lh := Line("imH", Int32(img.H));
    var le := Line("exposetime", ex);
    assert TailLines(img, ex) == (lt + lw) + lh + le;
    LineAvoids("imtype", Int32(img.imtype), 'H');
    LineAvoids("imW", Int32(img.W), 'H');
    TailKeyChar('H');
    ReadsTailLine(img, gtext, sy, ex, pixels, lt + lw, "imH", 2, Int32(img.H), le);
  }

  lemma ReadsExposetime(img: ImStorage, gtext: string, sy: int, ex: int, pixels: string)
    requires Sendable(img) && GText(gtext) && FitsLong(ex)
    ensures GetIntPar(MessageWith(img, gtext, sy, ex, pixels), "exposetime") == Some(ex)
  {
    var lt := Line("imtype", Int32(img.imtype));
    var lw := Line("imW", Int32(img.W));
    var lh := Line("imH", Int32(img.H));
    var le := Line("exposetime", ex);
    assert TailLines(img, ex) == (lt + lw + lh) + le + [];
    LineAvoids("imtype", Int32(img.imtype), 'o');
    LineAvoids("imW", Int32(img.W), 'o');
    LineAvoids("imH", Int32(img.H), 'o');
    TailKeyChar('o');
    ReadsTailLine(img, gtext, sy, ex, pixels, lt + lw + lh, "exposetime", 3, ex, []);
  }

  /** The characters the tail keys are recognised by do not occur before them. */
  lemma HeadAvoids(img: ImStorage, gtext: string, sy: int, c: char)
    requires Sendable(img) && GText(gtext)
    requires c !in GChars && c != '=' && c != '\n' && c != '-' && !IsDigit(c)
    requires c !in "binning" && c !in "subX" && c !in "subY" && c !in "subS" && c !in "exptime="
    ensures c !in Line("binning", Int32(img.binning)) + SubWith(img, sy) + ("exptime=" + gtext + "\n")
  {
    LineAvoids("binning", Int32(img.binning), c);
    if img.binning == 0xff {
      LineAvoids("subX", img.subframe.value.xstart, c);
      LineAvoids("subY", sy, c);
      LineAvoids("subS", img.subframe.value.size, c);
    }
  }

  /** "imdata" is found right after a metadata text holding neither NUL nor 'd'. */
  lemma FindsPixels(meta: string, pixels: string)
    requires NUL !in meta && 'd' !in meta
    ensures FindPar(meta + "imdata=" + pixels, "imdata") == Some(|meta| + 7)
  {
    MessageCString(meta, pixels);
    var s := CStr(meta + "imdata=" + pixels);
    var k := |meta|;
    assert s == meta + "imdata=" + CStr(pixels);
    assert s[k..k + 6] == "imdata";
    assert s[..k + 2] == meta + "im";
    NoEarlierOccurrence(s, "imdata", k, 2);
    FindFirst(s, "imdata", k);
    assert s[k + 6] == '=';
  }


  /*************************** the round trip ***************************/

  /** The message `send_ima` builds has the shape of `MessageWith`. */
  lemma MessageShape(img: ImStorage, gtext: string)
    requires Sendable(img)
    ensures ImageMessage(img, gtext) ==
      MessageWith(img, gtext, if img.binning == 0xff then img.subframe.value.ystart else 0, img.exposetime,
                  PixelBytes(img.imdata.value[..img.Area()]))
  {
    MetaShape(img, gtext);
  }

  /** The message as the code writes it has that shape too. */
  lemma MessageAsWrittenShape(img: ImStorage, gtext: string)
    requires Sendable(img)
    ensures ImageMessageAsWritten(img, gtext) ==
      MessageWith(img, gtext, if img.binning == 0xff then img.subframe.value.xstart else 0, Int32(img.exposetime),
                  PixelBytes(img.imdata.value[..img.Area()]))
  {
    MetaAsWrittenShape(img, gtext);
  }

  /** The binning and the subframe are read back as they were sent, "subY" as `sy`. */
  lemma HeadReadBack(img: ImStorage, gtext: string, sy: int, ex: int, pixels: string)
    requires Transmittable(img, gtext) && FitsLong(sy)
    ensures GetIntPar(MessageWith(img, gtext, sy, ex, pixels), "binning") == Some(img.binning)
    ensures img.binning == 0xff ==>
      GetIntPar(MessageWith(img, gtext, sy, ex, pixels), "subX") == Some(img.subframe.value.xstart) &&
      GetIntPar(MessageWith(img, gtext, sy, ex, pixels), "subY") == Some(sy) &&
      GetIntPar(MessageWith(img, gtext, sy, ex, pixels), "subS") == Some(img.subframe.value.size)
  {
    ReadsBinning(img, gtext, sy, ex, pixels);
    if img.binning == 0xff {
      ReadsSubX(img, gtext, sy, ex, pixels);
      ReadsSubY(img, gtext, sy, ex, pixels);
      ReadsSubS(img, gtext, sy, ex, pixels);
    }
  }

  /** The type, the size and the start of the exposure `ex` are read back as they were sent. */
  lemma TailReadBack(img: ImStorage, gtext: string, sy: int, ex: int, pixels: string)
    requires Transmittable(img, gtext) && FitsLong(ex)
    ensures GetIntPar(MessageWith(img, gtext, sy, ex, pixels), "imtype") == Some(img.imtype)
    ensures GetIntPar(MessageWith(img, gtext, sy, ex, pixels), "imW") == Some(img.W)
    ensures GetIntPar(MessageWith(img, gtext, sy, ex, pixels), "imH") == Some(img.H)
    ensures GetIntPar(MessageWith(img, gtext, sy, ex, pixels), "exposetime") == Some(ex)
  {
    ReadsImtype(img, gtext, sy, ex, pixels);
    ReadsImW(img, gtext, sy, ex, pixels);
    ReadsImH(img, gtext, sy, ex, pixels);
    ReadsExposetime(img, gtext, sy, ex, pixels);
  }

  /** Metadata of that shape holds neither NUL nor 'd'. */
  lemma MetaClean(img: ImStorage, gtext: string, sy: int, ex: int)
    requires Sendable(img) && GText(gtext)
    ensures NUL !in MetaWith(img, gtext, sy, ex) && 'd' !in MetaWith(img, gtext, sy, ex)
  {
    MetaNulFree(img, gtext, sy, ex);
    KeysWithoutD();
    MetaAvoids(img, gtext, sy, ex, 'd');
  }

  /** No key of the metadata, nor a printed number or exposure, holds a 'd'. */
  lemma KeysWithoutD()
    ensures 'd' !in GChars && !IsDigit('d')
    ensures 'd' !in "binning" && 'd' !in "subX" && 'd' !in "subY" && 'd' !in "subS" && 'd' !in "exptime="
    ensures 'd' !in "imtype" && 'd' !in "imW" && 'd' !in "imH" && 'd' !in "exposetime"
  {
  }

  /** "imdata" is found right before the pixels of a message whose metadata holds neither NUL nor 'd'. */
  lemma FindsPixelsIn(m: string, meta: string, pixels: string)
    requires m == meta + "imdata=" + pixels
    requires NUL !in meta && 'd' !in meta
    ensures FindPar(m, "imdata") == Some(|meta| + 7)
  {
    FindsPixels(meta, pixels);
  }


  /**
   * The metadata part of `get_imstorage` recovers every field a message of
   * that shape carries, with `sy` as the Y start and `ex` as the start of
   * the exposure.
   */
  lemma MetaReadBack(img: ImStorage, gtext: string, sy: int, ex: int, pixels: string,
                     prev: ImStorage, exptimeRead: Option<real>, stale: Subframe)
    requires Transmittable(img, gtext) && 0 <= sy < 0x1_0000 && FitsLong(ex)
    ensures var m := ReadMeta(prev, MessageWith(img, gtext, sy, ex, pixels), exptimeRead, stale);
      m.binning == img.binning &&
      m.subframe == (if img.binning == 0xff then Some(img.subframe.value.(ystart := sy)) else None) &&
      m.imtype == img.imtype && m.W == img.W && m.H == img.H &&
      m.exposetime == ex &&
      m.exptime == (if exptimeRead.Some? then exptimeRead.value else prev.exptime) &&
      m.st == prev.st && m.imname == prev.imname && m.imformat == prev.imformat && m.imdata == prev.imdata
  {
    var str := MessageWith(img, gtext, sy, ex, pixels);
    HeadReadBack(img, gtext, sy, ex, pixels);
    TailReadBack(img, gtext, sy, ex, pixels);
    ReadMetaFrom(img, sy, ex, prev, str, exptimeRead, stale);
  }

  /** `ReadMeta` on any buffer whose keys read back the given fields. */
  lemma ReadMetaFrom(img: ImStorage, sy: int, ex: int, prev: ImStorage, buf: string,
                     exptimeRead: Option<real>, stale: Subframe)
    requires Transmittable(img, []) && 0 <= sy < 0x1_0000
    requires GetIntPar(buf, "binning") == Some(img.binning)
    requires img.binning == 0xff ==>
      GetIntPar(buf, "subX") == Some(img.subframe.value.xstart) &&
      GetIntPar(buf, "subY") == Some(sy) &&
      GetIntPar(buf, "subS") == Some(img.subframe.value.size)
    requires GetIntPar(buf, "imtype") == Some(img.imtype)
    requires GetIntPar(buf, "imW") == Some(img.W) && GetIntPar(buf, "imH") == Some(img.H)
    requires GetIntPar(buf, "exposetime") == Some(ex)
    ensures var m := ReadMeta(prev, buf, exptimeRead, stale);
      m.binning == img.binning &&
      m.subframe == (if img.binning == 0xff then Some(img.subframe.value.(ystart := sy)) else None) &&
      m.imtype == img.imtype && m.W == img.W && m.H == img.H &&
      m.exposetime == ex &&
      m.exptime == (if exptimeRead.Some? then exptimeRead.value else prev.exptime) &&
      m.st == prev.st && m.imname == prev.imname && m.imformat == prev.imformat && m.imdata == prev.imdata
  {
    if img.binning == 0xff {
      var f := img.subframe.value;
      assert ReadSubframe(buf, stale) == Subframe(f.xstart, sy, f.size);
    }
  }

  /**
   * A client reading a message of that shape recovers the fields and the
   * pixels it carries, and keeps the fields it does not carry.
   */
  lemma ReadBack(img: ImStorage, gtext: string, sy: int, ex: int, prev: ImStorage, exptimeRead: Option<real>, stale: Subframe)
    requires Transmittable(img, gtext) && 0 <= sy < 0x1_0000 && FitsLong(ex)
    ensures var px := img.imdata.value[..img.Area()];
      var res := GetImStorage(prev, MessageWith(img, gtext, sy, ex, PixelBytes(px)), exptimeRead, stale);
      var r := res.0;
      res.1 &&
      r.binning == img.binning &&
      r.subframe == (if img.binning == 0xff then Some(img.subframe.value.(ystart := sy)) else None) &&
      r.imtype == img.imtype && r.W == img.W && r.H == img.H &&
      r.exposetime == ex &&
      r.imdata == Some(px) &&
      r.exptime == (if exptimeRead.Some? then exptimeRead.value else prev.exptime) &&
      r.st == prev.st && r.imname == prev.imname && r.imformat == prev.imformat
  {
    var px := img.imdata.value[..img.Area()];
    var meta := MetaWith(img, gtext, sy, ex);
    var str := MessageWith(img, gtext, sy, ex, PixelBytes(px));
    var p := |meta| + 7;
    assert FindPar(str, "imdata") == Some(p) by {
      MetaClean(img, gtext, sy, ex);
      FindsPixelsIn(str, meta, PixelBytes(px));
    }
    assert p <= |str| && str[p..] == PixelBytes(px) by {
      DropPrefix(meta + "imdata=", PixelBytes(px));
    }
    MetaReadBack(img, gtext, sy, ex, PixelBytes(px), prev, exptimeRead, stale);
    AcceptsPixels(prev, str, exptimeRead, stale, p, px);
  }

  /** `get_imstorage` accepts a buffer whose "imdata=" is followed by exactly the W*H pixels. */
  lemma AcceptsPixels(prev: ImStorage, buf: string, exptimeRead: Option<real>, stale: Subframe, p: nat, px: seq<uint16>)
    requires FindPar(buf, "imdata") == Some(p)
    requires p <= |buf| && buf[p..] == PixelBytes(px)
    requires ReadMeta(prev, buf, exptimeRead, stale).Area() == |px|
    requires 2 * |px| < TWO64
    ensures GetImStorage(prev, buf, exptimeRead, stale) == (ReadMeta(prev, buf, exptimeRead, stale).(imdata := Some(px)), true)
  {
    var m := ReadMeta(prev, buf, exptimeRead, stale);
    var n := m.Area();
    assert m.Area() * 2 == 2 * n;
    var datasz := SizeT(m.Area() * 2);
    assert datasz == 2 * |px|;
    assert datasz <= |buf| - p;
    DecodePixelBytes(px);
    assert DecodePixels(buf[p..], datasz / 2) == px;
  }

  /**
   * A client reading a message of the corrected `send_ima` recovers the
   * binning, the subframe when there is one, the image type, the size, the
   * start of the exposure and the pixels; the exposure time is what
   * `strtod` made of its text, and the fields the message does not carry
   * are left as they were.
   */
  lemma RoundTrip(img: ImStorage, gtext: string, prev: ImStorage, exptimeRead: Option<real>, stale: Subframe)
    requires Transmittable(img, gtext)
    ensures var res := GetImStorage(prev, ImageMessage(img, gtext), exptimeRead, stale);
      var r := res.0;
      res.1 &&
      r.binning == img.binning &&
      r.subframe == (if img.binning == 0xff then img.subframe else None) &&
      r.imtype == img.imtype && r.W == img.W && r.H == img.H &&
      r.exposetime == img.exposetime &&
      r.imdata == Some(img.imdata.value[..img.Area()]) &&
      r.exptime == (if exptimeRead.Some? then exptimeRead.value else prev.exptime) &&
      r.st == prev.st && r.imname == prev.imname && r.imformat == prev.imformat
  {
    var sy := if img.binning == 0xff then img.subframe.value.ystart else 0;
    MessageShape(img, gtext);
    ReadBack(img, gtext, sy, img.exposetime, prev, exptimeRead, stale);
  }

  /*************************** the message as written ***************************/

  /**
   * A client reading a message `send_ima` sends as the code stands recovers
   * every field except two: the Y start of the subframe arrives as the X
   * start, and the start of the exposure arrives wrapped to 32 bits.
   */
  lemma RoundTripAsWritten(img: ImStorage, gtext: string, prev: ImStorage, exptimeRead: Option<real>, stale: Subframe)
    requires Transmittable(img, gtext)
    ensures var res := GetImStorage(prev, ImageMessageAsWritten(img, gtext), exptimeRead, stale);
      var r := res.0;
      res.1 &&
      r.binning == img.binning &&
      r.subframe == (if img.binning == 0xff then Some(img.subframe.value.(ystart := img.subframe.value.xstart)) else None) &&
      r.imtype == img.imtype && r.W == img.W && r.H == img.H &&
      r.exposetime == Int32(img.exposetime) &&
      r.imdata == Some(img.imdata.value[..img.Area()]) &&
      r.exptime == (if exptimeRead.Some? then exptimeRead.value else prev.exptime) &&
      r.st == prev.st && r.imname == prev.imname && r.imformat == prev.imformat
  {
    var sy := if img.binning == 0xff then img.subframe.value.xstart else 0;
    MessageAsWrittenShape(img, gtext);
    ReadBack(img, gtext, sy, Int32(img.exposetime), prev, exptimeRead, stale);
  }

  /**
   * As the code stands, "subY" carries the X start: a client reads the X
   * start back as the Y start of the subframe.
   */
  lemma AsWrittenSubYIsX(img: ImStorage, gtext: string)
    requires Transmittable(img, gtext) && img.binning == 0xff
    ensures GetIntPar(ImageMessageAsWritten(img, gtext), "subY") == Some(img.subframe.value.xstart)
  {
    var px := img.imdata.value[..img.Area()];
    MetaAsWrittenShape(img, gtext);
    assert ImageMessageAsWritten(img, gtext) ==
      MessageWith(img, gtext, img.subframe.value.xstart, Int32(img.exposetime), PixelBytes(px));
    ReadsSubY(img, gtext, img.subframe.value.xstart, Int32(img.exposetime), PixelBytes(px));
  }

  /**
   * As the code stands, the start of the exposure goes through an `int`: a
   * start time from 2038 on (2^31 seconds after the epoch) arrives negative.
   */
  lemma AsWrittenExposetimeWraps(img: ImStorage, gtext: string)
    requires Transmittable(img, gtext) && img.exposetime == 0x8000_0000
    ensures GetIntPar(ImageMessageAsWritten(img, gtext), "exposetime") == Some(-0x8000_0000)
  {
    var px := img.imdata.value[..img.Area()];
    var sy := if img.binning == 0xff then img.subframe.value.xstart else 0;
    MetaAsWrittenShape(img, gtext);
    assert ImageMessageAsWritten(img, gtext) ==
      MessageWith(img, gtext, sy, Int32(img.exposetime), PixelBytes(px));
    ReadsExposetime(img, gtext, sy, Int32(img.exposetime), PixelBytes(px));
  }
}
