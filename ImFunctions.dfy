/**
 * Storage policy and image statistics of imfunctions.c: how output file
 * names are chosen (keep, overwrite or number), how the store-type, name
 * suffix and format letters select the output formats, the 256-bin
 * histogram with its 5 % / 50 % / 95 % indices, the recommended-exposure
 * clamp, the FITS row flip and the `store_image` status bits.
 *
 * `stat` is an oracle from a file name to what the file system says about
 * it; the local-time text of a timestamp is an opaque string parameter.
 * The build is taken to have cfitsio, libtiff and libraw available.
 */
module ImFunctions {
  import opened CStrings

  /** How files are stored (imfunctions.h:32-36). */
  datatype StoreType = StoreRewrite | StoreNormal | StoreNextNum

  /** Output format flags, OR-ed together (imfunctions.h:39-44). */
  const FORMAT_NONE: bv8 := 0
  const FORMAT_FITS: bv8 := 1
  const FORMAT_TIFF: bv8 := 2
  const FORMAT_RAW: bv8 := 4

  /** Exposed image type (imfunctions.h:47-51). */
  const IMTYPE_AUTODARK: int := 0
  const IMTYPE_LIGHT: int := 1
  const IMTYPE_DARK: int := 2

  /** File suffixes (imfunctions.h:79-82). */
  const SUFFIX_FITS: string := "fits.gz"
  const SUFFIX_RAW: string := "bin"
  const SUFFIX_TIFF: string := "tiff"

  /** The formats `chk_storeimg` checks, in order, with their suffixes. */
  const Formats: seq<bv8> := [FORMAT_FITS, FORMAT_TIFF, FORMAT_RAW]
  const Suffixes: seq<string> := [SUFFIX_FITS, SUFFIX_TIFF, SUFFIX_RAW]

  type uint16 = x: int | 0 <= x < 0x1_0000

  /** `imsubframe` (imfunctions.h:54-58). */
  datatype Subframe = Subframe(xstart: int, ystart: int, size: int)

  /**
   * `imstorage` (imfunctions.h:61-74). `imname`, `subframe` and `imdata`
   * are the pointers that may be NULL; pixel data is row-major.
   */
  datatype ImStorage = ImStorage(
    st: StoreType,
    imname: Option<string>,
    imformat: bv8,
    imtype: int,
    exptime: real,
    binning: int,
    subframe: Option<Subframe>,
    W: nat,
    H: nat,
    imdata: Option<seq<uint16>>,
    exposetime: int,
    timestamp: bool,
    once: bool)
  {
    /** The number of pixels of a W x H frame. */
    function Area(): nat
    {
      W * H
    }
  }

  /** What `stat` reports: the file exists, is absent (ENOENT), or another error. */
  datatype StatResult = Exists | Absent | AccessError

  /*************************** make_filename ***************************/

  /** The stem `make_filename` builds on: the name, plus "_" and the local time when stamping. */
  function OutFile(img: ImStorage, stamp: string): (out: string)
    requires img.imname.Some?
    ensures CStr(img.imname.value) <= out
    ensures !img.timestamp ==> out == CStr(img.imname.value)
  {
    if img.timestamp then CStr(img.imname.value) + "_" + stamp else CStr(img.imname.value)
  }

  function PlainName(out: string, suff: string): string
  {
    out + "." + suff
  }

  function NumberedName(out: string, k: nat, suff: string): string
  {
    out + "_" + Pad4(k) + "." + suff
  }

  /** Two different numbers in 1..9999 never give the same numbered name. */
  lemma NumberedNamesDistinct(out: string, suff: string, j: nat, k: nat)
    requires j < 10000 && k < 10000 && j != k
    ensures NumberedName(out, j, suff) != NumberedName(out, k, suff)
  {
    var a, b := NumberedName(out, j, suff), NumberedName(out, k, suff);
    if a == b {
      assert a[|out| + 1..|out| + 5] == Pad4(j);
      assert b[|out| + 1..|out| + 5] == Pad4(k);
      Pad4Value(j);
      Pad4Value(k);
    }
  }

  /** A number `k` is free when no file with that numbered name exists. */
  predicate Free(out: string, suff: string, stat: string -> StatResult, k: nat)
  {
    stat(NumberedName(out, k, suff)) == Absent
  }

  /** The smallest free number in `from`..9999, if any. */
  function FirstFree(out: string, suff: string, stat: string -> StatResult, from: nat): (r: Option<nat>)
    requires 1 <= from
    ensures r.Some? ==> from <= r.value < 10000 && Free(out, suff, stat, r.value)
    ensures r.Some? ==> forall j :: from <= j < r.value ==> !Free(out, suff, stat, j)
    ensures r.None? ==> forall j :: from <= j < 10000 ==> !Free(out, suff, stat, j)
    decreases 10000 - from
  {
    if from >= 10000 then None
    else if Free(out, suff, stat, from) then Some(from)
    else FirstFree(out, suff, stat, from + 1)
  }

  /** `make_filename` yields a name for this store type, stem and suffix. */
  predicate Available(st: StoreType, out: string, suff: string, stat: string -> StatResult)
  {
    match st
    case StoreNormal => stat(PlainName(out, suff)) == Absent
    case StoreRewrite => stat(PlainName(out, suff)) != AccessError
    case StoreNextNum => FirstFree(out, suff, stat, 1).Some?
  }

  /**
   * `make_filename`: "out.suff" for the normal and rewrite policies (a '!'
   * in front of an existing FITS name tells cfitsio to overwrite it), or
   * "out_NNNN.suff" with the smallest free NNNN for the numbering policy.
   */
  method MakeFilename(img: ImStorage, suff: string, stamp: string, stat: string -> StatResult)
    returns (r: Option<string>)
    requires img.imname.Some?
    ensures r.Some? <==> Available(img.st, OutFile(img, stamp), suff, stat)
    ensures img.st == StoreNormal && r.Some? ==> r.value == PlainName(OutFile(img, stamp), suff)
    ensures img.st == StoreRewrite && r.Some? ==>
      var p := PlainName(OutFile(img, stamp), suff);
      r.value == (if stat(p) == Exists && suff == SUFFIX_FITS then "!" + p else p)
    ensures img.st == StoreNextNum && r.Some? ==>
      r.value == NumberedName(OutFile(img, stamp), FirstFree(OutFile(img, stamp), suff, stat, 1).value, suff)
  {
    var outfile := CStr(img.imname.value);
    if img.timestamp {
      outfile := outfile + "_" + stamp;
    }
    assert outfile == OutFile(img, stamp);
    if img.st == StoreNormal || img.st == StoreRewrite {
      var buff := outfile + "." + suff;
      var s := stat(buff);
      if s != Exists {
        if s == AccessError {
          return None;
        }
        return Some(buff);
      }
      if img.st == StoreRewrite {
        if suff == SUFFIX_FITS {
          buff := "!" + outfile + "." + suff;
        }
        return Some(buff);
      }
      return None;
    }
    r := NumberedFile(outfile, suff, stat);
  }

  /** The numbering loop of `make_filename`: the first "out_NNNN.suff" that `stat` reports absent. */
  method NumberedFile(outfile: string, suff: string, stat: string -> StatResult) returns (r: Option<string>)
    ensures r.Some? <==> FirstFree(outfile, suff, stat, 1).Some?
    ensures r.Some? ==> r.value == NumberedName(outfile, FirstFree(outfile, suff, stat, 1).value, suff)
  {
    var num := 1;
    while num < 10000
      invariant 1 <= num <= 10000
      invariant forall j :: 1 <= j < num ==> !Free(outfile, suff, stat, j)
      invariant FirstFree(outfile, suff, stat, 1) == FirstFree(outfile, suff, stat, num)
    {
      var buff := outfile + "_" + Pad4(num) + "." + suff;
      if stat(buff) == Absent {
        assert Free(outfile, suff, stat, num);
        return Some(buff);
      }
      num := num + 1;
    }
    assert FirstFree(outfile, suff, stat, num).None?;
    return None;
  }

  /*************************** chk_storeimg ***************************/

  /**
   * The store argument: NULL keeps existing files, any case-insensitive
   * prefix of "overwrite" or "rewrite" (the empty string included)
   * overwrites, any prefix of "enumerate" or "numerate" numbers files, and
   * everything else, "normal" among it, is refused.
   */
  function StoreTypeOf(store: Option<string>): (r: Option<StoreType>)
    ensures r == Some(StoreNormal) <==> store.None?
    ensures store.Some? && CStr(store.value) == [] ==> r == Some(StoreRewrite)
    ensures r == Some(StoreNextNum) ==>
      PrefixIgnoreCase(CStr(store.value), "enumerate") || PrefixIgnoreCase(CStr(store.value), "numerate")
    ensures r == Some(StoreRewrite) ==>
      PrefixIgnoreCase(CStr(store.value), "overwrite") || PrefixIgnoreCase(CStr(store.value), "rewrite")
    ensures store.Some? && (PrefixIgnoreCase(CStr(store.value), "overwrite") || PrefixIgnoreCase(CStr(store.value), "rewrite"))
      ==> r == Some(StoreRewrite)
    ensures store.Some? && (PrefixIgnoreCase(CStr(store.value), "enumerate") || PrefixIgnoreCase(CStr(store.value), "numerate"))
      ==> r == Some(StoreRewrite) || r == Some(StoreNextNum)
    ensures r == None <==>
      store.Some? && !PrefixIgnoreCase(CStr(store.value), "overwrite") && !PrefixIgnoreCase(CStr(store.value), "rewrite")
      && !PrefixIgnoreCase(CStr(store.value), "enumerate") && !PrefixIgnoreCase(CStr(store.value), "numerate")
  {
    if store.None? then Some(StoreNormal)
    else
      var s := CStr(store.value);
      if PrefixIgnoreCase(s, "overwrite") || PrefixIgnoreCase(s, "rewrite") then Some(StoreRewrite)
      else if PrefixIgnoreCase(s, "enumerate") || PrefixIgnoreCase(s, "numerate") then Some(StoreNextNum)
      else None
  }

  /** Every non-empty abbreviation of "enumerate" or "numerate" selects numbering, in any case. */
  lemma NumberingAbbreviations(s: string)
    requires s != [] && NUL !in s
    requires PrefixIgnoreCase(s, "enumerate") || PrefixIgnoreCase(s, "numerate")
    ensures StoreTypeOf(Some(s)) == Some(StoreNextNum)
  {
    assert CStr(s) == s;
    assert Lower(s[0]) == 'e' || Lower(s[0]) == 'n';
  }

  /** "normal", the word the usage text names, is not an accepted store type. */
  lemma NormalIsRefused()
    ensures StoreTypeOf(Some("normal")) == None
  {
    assert CStr("normal") == "normal";
    assert Lower("normal"[0]) != Lower("overwrite"[0]) && Lower("normal"[0]) != Lower("rewrite"[0]);
    assert Lower("normal"[0]) != Lower("enumerate"[0]) && Lower("normal"[1]) != Lower("numerate"[1]);
  }

  /** A suffix equal to a word up to case starts with that word's letter, so words with different initials exclude each other. */
  lemma SuffixInitial(suff: string, word: string)
    requires word != []
    ensures EqualsIgnoreCase(suff, word) ==> suff != [] && Lower(suff[0]) == Lower(word[0])
  {
  }

  /** The format a file-name suffix names, FORMAT_NONE when it names none. */
  function SuffixFormat(suff: string): (f: bv8)
    ensures f == FORMAT_NONE || f == FORMAT_FITS || f == FORMAT_TIFF || f == FORMAT_RAW
    ensures f == FORMAT_TIFF <==> EqualsIgnoreCase(suff, "tiff") || EqualsIgnoreCase(suff, "tif")
    ensures f == FORMAT_FITS <==> EqualsIgnoreCase(suff, "fits") || EqualsIgnoreCase(suff, "fit")
    ensures f == FORMAT_RAW <==>
      EqualsIgnoreCase(suff, "raw") || EqualsIgnoreCase(suff, "bin") || EqualsIgnoreCase(suff, "dump")
  {
    SuffixInitial(suff, "tiff"); SuffixInitial(suff, "tif"); SuffixInitial(suff, "fits"); SuffixInitial(suff, "fit");
    if EqualsIgnoreCase(suff, "tiff") || EqualsIgnoreCase(suff, "tif") then FORMAT_TIFF
    else if EqualsIgnoreCase(suff, "fits") || EqualsIgnoreCase(suff, "fit") then FORMAT_FITS
    else if EqualsIgnoreCase(suff, "raw") || EqualsIgnoreCase(suff, "bin") || EqualsIgnoreCase(suff, "dump")
    then FORMAT_RAW
    else FORMAT_NONE
  }

  /**
   * The name with a recognised suffix cut off at its last '.', and the
   * format that suffix names; an unrecognised suffix leaves the name whole.
   */
  function SplitSuffix(name: string): (r: (string, bv8))
    ensures r.1 == FORMAT_NONE ==> r.0 == name
    ensures r.1 != FORMAT_NONE ==> |r.0| < |name| && name[|r.0|] == '.' && r.0 == name[..|r.0|]
    ensures r.1 != FORMAT_NONE ==> r.1 == SuffixFormat(name[|r.0| + 1..]) && '.' !in name[|r.0| + 1..]
  {
    match LastIndexOf(name, '.')
    case None => (name, FORMAT_NONE)
    case Some(p) =>
      var f := SuffixFormat(name[p + 1..]);
      if f == FORMAT_NONE then (name, f) else (name[..p], f)
  }

  /** Splitting a name built from a stem and a recognised suffix gives both back. */
  lemma SplitSuffixOfJoined(stem: string, ext: string)
    requires '.' !in ext && SuffixFormat(ext) != FORMAT_NONE
    ensures SplitSuffix(stem + "." + ext) == (stem, SuffixFormat(ext))
  {
    var name := stem + "." + ext;
    var p := LastIndexOf(name, '.');
    assert name[|stem|] == '.';
    assert p.Some?;
    assert name[|stem| + 1..] == ext;
    assert name[..|stem|] == stem;
  }

  /** The flags the letters of a format string select: f/F, t/T, and r/R/d/D. */
  function FormatLetters(f: string): (r: bv8)
    ensures r & 0xf8 == 0
    ensures (r & FORMAT_FITS != 0) <==> ('f' in f || 'F' in f)
    ensures (r & FORMAT_TIFF != 0) <==> ('t' in f || 'T' in f)
    ensures (r & FORMAT_RAW != 0) <==> ('r' in f || 'R' in f || 'd' in f || 'D' in f)
  {
    (if 'f' in f || 'F' in f then FORMAT_FITS else FORMAT_NONE)
    | (if 't' in f || 'T' in f then FORMAT_TIFF else FORMAT_NONE)
    | (if 'r' in f || 'R' in f || 'd' in f || 'D' in f then FORMAT_RAW else FORMAT_NONE)
  }

  /** The format chosen: the format string if given, else a recognised suffix, else FITS. */
  function ChosenFormat(format: Option<string>, bySuffix: bv8): (fmt: bv8)
    requires bySuffix == FORMAT_NONE || bySuffix == FORMAT_FITS || bySuffix == FORMAT_TIFF || bySuffix == FORMAT_RAW
    ensures format.Some? ==> fmt == FormatLetters(CStr(format.value))
    ensures format.None? ==> fmt != FORMAT_NONE && (bySuffix != FORMAT_NONE ==> fmt == bySuffix)
    ensures format.None? && bySuffix == FORMAT_NONE ==> fmt == FORMAT_FITS
  {
    if format.Some? then FormatLetters(CStr(format.value))
    else if bySuffix != FORMAT_NONE then bySuffix
    else FORMAT_FITS
  }

  /** The storage record after the suffix is cut from its name. */
  function Renamed(img: ImStorage): ImStorage
    requires img.imname.Some?
  {
    var (stem, f) := SplitSuffix(CStr(img.imname.value));
    if f == FORMAT_NONE then img else img.(imname := Some(stem))
  }

  /** The suffix pass of `chk_storeimg`: a recognised suffix is cut from the name and remembered. */
  method CutSuffix(img: ImStorage) returns (img': ImStorage, fbysuff: bv8)
    requires img.imname.Some?
    ensures img' == Renamed(img)
    ensures fbysuff == SplitSuffix(CStr(img.imname.value)).1
  {
    var name := CStr(img.imname.value);
    fbysuff := FORMAT_NONE;
    img' := img;
    var pt := LastIndexOf(name, '.');
    if pt.Some? {
      fbysuff := SuffixFormat(name[pt.value + 1..]);
      if fbysuff != FORMAT_NONE {
        img' := img'.(imname := Some(name[..pt.value]));
      }
    }
  }

  /**
   * `chk_storeimg`. The storage record is updated in place, so the record
   * after the call is returned beside the verdict `ok` (the non-NULL return);
   * the name is already cut when a bad format string is refused, and the
   * store type and format are already set when a name cannot be made.
   */
  method ChkStoreImg(img: ImStorage, store: Option<string>, format: Option<string>,
                     stamp: string, stat: string -> StatResult)
    returns (img': ImStorage, ok: bool)
    ensures img.imname.None? || StoreTypeOf(store).None? ==> img' == img && !ok
    ensures img.imname.Some? && StoreTypeOf(store).Some? && BadFormatString(format) ==>
      img' == Renamed(img) && !ok
    ensures img.imname.Some? && StoreTypeOf(store).Some? && !BadFormatString(format) ==>
      img' == Renamed(img).(st := StoreTypeOf(store).value,
                            imformat := ChosenFormat(format, SplitSuffix(CStr(img.imname.value)).1))
    ensures img.imname.Some? && StoreTypeOf(store).Some? && !BadFormatString(format) ==>
      (ok <==> NamesAvailable(img', stamp, stat))
  {
    if img.imname.None? {
      return img, false;
    }
    var st := StoreTypeOf(store);
    if st.None? {
      return img, false;
    }
    var sfx;
    img', sfx := CutSuffix(img);
    var fmt := FORMAT_FITS;
    if format.Some? {
      fmt := FormatLetters(CStr(format.value));
      if fmt == FORMAT_NONE {
        return img', false;
      }
    } else if sfx != FORMAT_NONE {
      fmt := sfx;
    }
    assert fmt == ChosenFormat(format, sfx);
    img' := img'.(st := st.value, imformat := fmt);
    ok := CheckNames(img', stamp, stat);
  }

  /** A format string is given but names no format. */
  predicate BadFormatString(format: Option<string>)
  {
    format.Some? && FormatLetters(CStr(format.value)) == FORMAT_NONE
  }

  /** A file name can be made for every format selected in `imformat`. */
  predicate NamesAvailable(img: ImStorage, stamp: string, stat: string -> StatResult)
    requires img.imname.Some?
  {
    forall i :: 0 <= i < |Formats| ==> NameFor(img, stamp, stat, i)
  }

  /** The i-th format is not selected, or a name can be made for it. */
  predicate NameFor(img: ImStorage, stamp: string, stat: string -> StatResult, i: nat)
    requires img.imname.Some? && i < |Formats|
  {
    Formats[i] & img.imformat != 0 ==> Available(img.st, OutFile(img, stamp), Suffixes[i], stat)
  }

  /** The loop of `chk_storeimg` that tries `make_filename` for each selected format in turn. */
  method CheckNames(img: ImStorage, stamp: string, stat: string -> StatResult) returns (ok: bool)
    requires img.imname.Some?
    ensures ok <==> NamesAvailable(img, stamp, stat)
  {
    var i := 0;
    while i < |Formats|
      invariant 0 <= i <= |Formats|
      invariant forall j :: 0 <= j < i ==> NameFor(img, stamp, stat, j)
    {
      if Formats[i] & img.imformat != 0 {
        var fname := MakeFilename(img, Suffixes[i], stamp, stat);
        if fname.None? {
          assert !NameFor(img, stamp, stat, i);
          return false;
        }
      }
      assert NameFor(img, stamp, stat, i);
      i := i + 1;
    }
    return true;
  }

  /*************************** histogram ***************************/

  /** The histogram bin of a 16-bit pixel: its high byte. */
  function BinOf(v: uint16): (b: nat)
    ensures b < 256 && b * 256 <= v < (b + 1) * 256
  {
    v / 256
  }

  /** How many of the pixels fall into bin `b`. */
  function CountBin(px: seq<uint16>, b: nat): nat
  {
    if px == [] then 0
    else CountBin(px[..|px| - 1], b) + (if BinOf(px[|px| - 1]) == b then 1 else 0)
  }

  function HistogramOf(px: seq<uint16>): seq<nat>
  {
    seq(256, b requires 0 <= b => CountBin(px, b))
  }

  /** Sum of a sequence of counts. */
  function Total(h: seq<nat>): nat
  {
    if h == [] then 0 else Total(h[..|h| - 1]) + h[|h| - 1]
  }

  /** The number of pixels in bins 0..l. */
  function Acc(h: seq<nat>, l: nat): nat
    requires l < |h|
  {
    Total(h[..l + 1])
  }

  lemma {:induction false} TotalOfZeros(h: seq<nat>)
    requires forall i :: 0 <= i < |h| ==> h[i] == 0
    ensures Total(h) == 0
  {
    if h != [] {
      TotalOfZeros(h[..|h| - 1]);
    }
  }

  lemma {:induction false} TotalBump(h: seq<nat>, i: nat)
    requires i < |h|
    ensures Total(h[i := h[i] + 1]) == Total(h) + 1
  {
    var h' := h[i := h[i] + 1];
    if i == |h| - 1 {
      assert h'[..|h'| - 1] == h[..|h| - 1];
    } else {
      assert h'[..|h'| - 1] == h[..|h| - 1][i := h[i] + 1];
      TotalBump(h[..|h| - 1], i);
    }
  }

  /** Every pixel lands in exactly one bin: the bins add up to the pixel count. */
  lemma {:induction false} HistogramTotal(px: seq<uint16>)
    ensures Total(HistogramOf(px)) == |px|
  {
    if px == [] {
      TotalOfZeros(HistogramOf(px));
    } else {
      var p := px[..|px| - 1];
      var b := BinOf(px[|px| - 1]);
      HistogramTotal(p);
      assert HistogramOf(px) == HistogramOf(p)[b := HistogramOf(p)[b] + 1];
      TotalBump(HistogramOf(p), b);
    }
  }

  /** The bins `save_histo` fills, one pixel at a time. */
  method Histogram(px: seq<uint16>) returns (hist: seq<nat>)
    ensures hist == HistogramOf(px)
  {
    var h := new nat[256](_ => 0);
    var l := 0;
    while l < |px|
      invariant 0 <= l <= |px|
      invariant forall b :: 0 <= b < 256 ==> h[b] == CountBin(px[..l], b)
    {
      assert px[..l + 1][..l] == px[..l];
      var b := BinOf(px[l]);
      h[b] := h[b] + 1;
      l := l + 1;
    }
    assert px[..l] == px;
    hist := h[..];
  }

  /** Accumulated counts never decrease from bin to bin. */
  lemma {:induction false} AccMonotone(h: seq<nat>, l: nat, l': nat)
    requires l <= l' < |h|
    ensures Acc(h, l) <= Acc(h, l')
    decreases l' - l
  {
    if l < l' {
      AccMonotone(h, l, l' - 1);
      assert h[..l' + 1][..l'] == h[..l'];
    }
  }

  /** The first bin below `n` at which the accumulated count reaches `t`, or -1. */
  function ReachBelow(h: seq<nat>, t: int, n: nat): (r: int)
    requires n <= |h|
    ensures r == -1 ==> forall l :: 0 <= l < n ==> Acc(h, l) < t
    ensures r != -1 ==> 0 <= r < n && Acc(h, r) >= t
    ensures r != -1 ==> forall l :: 0 <= l < r ==> Acc(h, l) < t
  {
    if n == 0 then -1
    else
      var r := ReachBelow(h, t, n - 1);
      if r != -1 then r else if Acc(h, n - 1) >= t then n - 1 else -1
  }

  function FirstReach(h: seq<nat>, t: int): int
  {
    ReachBelow(h, t, |h|)
  }

  /** A target within the histogram's total is reached, and a larger one no sooner. */
  lemma FirstReachOrdered(h: seq<nat>, t1: int, t2: int)
    requires h != [] && t1 <= t2 <= Total(h)
    ensures 0 <= FirstReach(h, t1) <= FirstReach(h, t2) < |h|
  {
    assert h[..|h| - 1 + 1] == h;
    assert Acc(h, |h| - 1) == Total(h);
  }

  /** The 5 %, median and 95 % scan of `save_histo` over the filled bins. */
  method Percentiles(hist: seq<nat>, S: nat) returns (lval: int, mval: int, tval: int)
    requires |hist| == 256
    ensures lval == FirstReach(hist, S / 20)
    ensures mval == FirstReach(hist, S / 2)
    ensures tval == FirstReach(hist, S * 19 / 20)
  {
    var low5, med, up5 := S / 20, S / 2, (S * 19) / 20;
    var acc := 0;
    lval, mval, tval := -1, -1, -1;
    var l := 0;
    while l < 256
      invariant 0 <= l <= 256
      invariant acc == Total(hist[..l])
      invariant lval == ReachBelow(hist, low5, l)
      invariant mval == ReachBelow(hist, med, l)
      invariant tval == ReachBelow(hist, up5, l)
    {
      assert hist[..l + 1][..l] == hist[..l];
      acc := acc + hist[l];
      assert acc == Acc(hist, l);
      if lval < 0 && acc >= low5 {
        lval := l;
      }
      if mval < 0 && acc >= med {
        mval := l;
      }
      if tval < 0 && acc >= up5 {
        tval := l;
      }
      l := l + 1;
    }
  }

  /**
   * The statistics part of `save_histo` for the W*H pixels: the histogram,
   * and the three indices, which are always found and ordered.
   */
  method HistogramStats(px: seq<uint16>) returns (hist: seq<nat>, lval: int, mval: int, tval: int)
    ensures hist == HistogramOf(px) && Total(hist) == |px|
    ensures lval == FirstReach(hist, |px| / 20) && mval == FirstReach(hist, |px| / 2)
    ensures tval == FirstReach(hist, |px| * 19 / 20)
    ensures 0 <= lval <= mval <= tval < 256
    ensures (lval, mval, tval) == PercentileIndices(px)
  {
    hist := Histogram(px);
    HistogramTotal(px);
    lval, mval, tval := Percentiles(hist, |px|);
    FirstReachOrdered(hist, |px| / 20, |px| / 2);
    FirstReachOrdered(hist, |px| / 2, |px| * 19 / 20);
  }

  /*************************** exposure ***************************/

  const MIN_EXPTIME: real := 0.00005

  /** The recommended exposure: `raw` clamped to [5e-5, maxExp]. */
  function RecommendedExposure(raw: real, maxExp: real): (e: real)
    ensures MIN_EXPTIME <= maxExp ==> MIN_EXPTIME <= e <= maxExp
    ensures MIN_EXPTIME <= raw <= maxExp ==> e == raw
    ensures raw < MIN_EXPTIME ==> e == MIN_EXPTIME
  {
    if raw < MIN_EXPTIME then MIN_EXPTIME else if raw > maxExp then maxExp else raw
  }

  /** Clamping a recommended exposure again changes nothing. */
  lemma RecommendedExposureIdempotent(raw: real, maxExp: real)
    requires MIN_EXPTIME <= maxExp
    ensures RecommendedExposure(RecommendedExposure(raw, maxExp), maxExp) == RecommendedExposure(raw, maxExp)
  {
  }

  /** The 5 %, 50 % and 95 % bin indices of a set of pixels. */
  function PercentileIndices(px: seq<uint16>): (int, int, int)
  {
    var h := HistogramOf(px);
    (FirstReach(h, |px| / 20), FirstReach(h, |px| / 2), FirstReach(h, |px| * 19 / 20))
  }

  /** The pixels `save_histo` scans: the first W*H of the data. */
  function Pixels(img: ImStorage): (px: seq<uint16>)
    requires img.imdata.Some? && img.Area() <= |img.imdata.value|
    ensures |px| == img.Area()
  {
    img.imdata.value[..img.Area()]
  }

  /** The exposure `save_histo` recommends after a frame of pixels `px` exposed for `exptime`. */
  function HistogramExposure(px: seq<uint16>, exptime: real, multiplier: (int, int, int) -> real, maxExptime: real): (e: real)
    ensures MIN_EXPTIME <= maxExptime ==> MIN_EXPTIME <= e <= maxExptime
    ensures var p := PercentileIndices(px); var raw := exptime * multiplier(p.0, p.1, p.2);
      MIN_EXPTIME <= raw <= maxExptime ==> e == raw
  {
    var p := PercentileIndices(px);
    RecommendedExposure(exptime * multiplier(p.0, p.1, p.2), maxExptime)
  }

  /** The percentile pass of `save_histo` and the clamped exposure it derives from them. */
  method Recommend(px: seq<uint16>, exptime: real, multiplier: (int, int, int) -> real, maxExptime: real)
    returns (E: real)
    requires MIN_EXPTIME <= maxExptime
    ensures E == HistogramExposure(px, exptime, multiplier, maxExptime)
    ensures MIN_EXPTIME <= E <= maxExptime
  {
    var lval, mval, tval := PercentilePass(px);
    E := RecommendedExposure(exptime * multiplier(lval, mval, tval), maxExptime);
  }

  /** The three percentile bins of the pixels, as the histogram pass finds them. */
  method PercentilePass(px: seq<uint16>) returns (lval: int, mval: int, tval: int)
    ensures (lval, mval, tval) == PercentileIndices(px)
    ensures 0 <= lval <= mval <= tval < 256
  {
    var hist;
    hist, lval, mval, tval := HistogramStats(px);
  }

  /**
   * The module state `max_exptime` and `exp_calculated`. `multiplier` stands
   * for the floating-point choice of a scale factor from the three indices.
   */
  class AutoExposure {
    var maxExptime: real
    var expCalculated: real

    ghost predicate Valid()
      reads this
    {
      30.0 < maxExptime < 300.0
    }

    constructor ()
      ensures Valid() && maxExptime == 180.0 && expCalculated == -1.0
    {
      maxExptime := 180.0;
      expCalculated := -1.0;
    }

    /** `set_max_exptime`: only a limit strictly between 30 s and 300 s is taken. */
    method SetMaxExptime(t: real)
      requires Valid()
      modifies this
      ensures Valid()
      ensures maxExptime == (if 30.0 < t < 300.0 then t else old(maxExptime))
      ensures expCalculated == old(expCalculated)
    {
      if 30.0 < t && t < 300.0 {
        maxExptime := t;
      }
    }

    /**
     * `save_histo`: 1000 without data; a negative status when writing the
     * histogram file fails (`printed == Some(false)`); otherwise 0, with the
     * clamped recommendation stored in `expCalculated`.
     */
    method SaveHisto(img: ImStorage, printed: Option<bool>, multiplier: (int, int, int) -> real)
      returns (status: int)
      requires Valid()
      requires img.imdata.Some? ==> img.Area() <= |img.imdata.value|
      modifies this`expCalculated
      ensures Valid() && maxExptime == old(maxExptime)
      ensures img.imdata.None? ==> status == 1000 && expCalculated == old(expCalculated)
      ensures img.imdata.Some? && printed == Some(false) ==>
        status < 0 && expCalculated == old(expCalculated)
      ensures img.imdata.Some? && printed != Some(false) ==>
        status == 0 && expCalculated == HistogramExposure(Pixels(img), img.exptime, multiplier, maxExptime)
      ensures expCalculated != old(expCalculated) ==> MIN_EXPTIME <= expCalculated <= maxExptime
    {
      if img.imdata.None? {
        return 1000;
      }
      if printed == Some(false) {
        return -1;
      }
      expCalculated := Recommend(Pixels(img), img.exptime, multiplier, maxExptime);
      return 0;
    }
  }

  /*************************** writers ***************************/

  /** Offset of row y in a row-major image of width W (that is, y * W). */
  function RowStart(W: nat, y: nat): nat
  {
    if y == 0 then 0 else RowStart(W, y - 1) + W
  }

  /** Index of pixel (x, y) in a row-major image of width W. */
  function At(W: nat, y: nat, x: nat): nat
  {
    RowStart(W, y) + x
  }

  lemma {:induction false} RowStartIsProduct(W: nat, y: nat)
    ensures RowStart(W, y) == y * W
  {
    if y > 0 {
      RowStartIsProduct(W, y - 1);
    }
  }

  /** Row y ends no later than row n starts when y < n. */
  lemma {:induction false} RowBefore(W: nat, y: nat, n: nat)
    requires y < n
    ensures RowStart(W, y) + W <= RowStart(W, n)
  {
    if y < n - 1 {
      RowBefore(W, y, n - 1);
    }
  }

  /**
   * The first n rows of `out` are the last n rows of the H-row image `d`,
   * in reverse order: pixel (x, y) of `out` is pixel (x, H-1-y) of `d`.
   */
  ghost predicate FlipPrefix(out: seq<uint16>, d: seq<uint16>, W: nat, H: nat, n: nat)
  {
    |out| == RowStart(W, n) && n <= H && RowStart(W, H) <= |d| &&
    forall y: nat, x: nat :: y < n && x < W ==> FlippedPixel(out, d, W, H, y, x)
  }

  /** Pixel (x, y) of `out` is pixel (x, H-1-y) of `d`. */
  ghost predicate FlippedPixel(out: seq<uint16>, d: seq<uint16>, W: nat, H: nat, y: nat, x: nat)
    requires y < H
  {
    At(W, y, x) < |out| && At(W, H - 1 - y, x) < |d| && out[At(W, y, x)] == d[At(W, H - 1 - y, x)]
  }

  /** `out` is `d` with its H rows of width W in reverse order. */
  ghost predicate IsFlipOf(out: seq<uint16>, d: seq<uint16>, W: nat, H: nat)
  {
    FlipPrefix(out, d, W, H, H)
  }

  /** Flipping is its own inverse: the original is the flip of the flipped image. */
  lemma FlipIsSymmetric(out: seq<uint16>, d: seq<uint16>, W: nat, H: nat)
    requires IsFlipOf(out, d, W, H) && |d| == |out|
    ensures IsFlipOf(d, out, W, H)
  {
    forall y: nat, x: nat | y < H && x < W
      ensures FlippedPixel(d, out, W, H, y, x)
    {
      var y' := H - 1 - y;
      assert H - 1 - y' == y;
      assert FlippedPixel(out, d, W, H, y', x);
    }
    assert FlipPrefix(d, out, W, H, H);
  }

  /** Appending input row H-1-n to a flipped prefix of n rows gives one of n+1 rows. */
  lemma FlipPrefixExtend(out: seq<uint16>, d: seq<uint16>, W: nat, H: nat, n: nat, row: seq<uint16>)
    requires n < H
    requires FlipPrefix(out, d, W, H, n)
    requires |row| == W
    requires forall x :: 0 <= x < W ==> RowStart(W, H - 1 - n) + x < |d| && row[x] == d[RowStart(W, H - 1 - n) + x]
    ensures FlipPrefix(out + row, d, W, H, n + 1)
  {
    var out' := out + row;
    forall y: nat, x: nat | y < n + 1 && x < W
      ensures FlippedPixel(out', d, W, H, y, x)
    {
      if y == n {
        RowBefore(W, H - 1 - n, H);
        assert out'[|out| + x] == row[x];
      } else {
        assert FlippedPixel(out, d, W, H, y, x);
      }
    }
  }

  /**
   * The row flip of `writefits`: output row y is input row H-1-y, copied a
   * row at a time while the input pointer walks upwards.
   */
  method FlipRows(imdata: seq<uint16>, W: nat, H: nat) returns (image: seq<uint16>)
    requires W * H <= |imdata|
    ensures IsFlipOf(image, imdata, W, H) && |image| == W * H
  {
    RowStartIsProduct(W, H);
    image := [];
    var iptr: int := W * (H - 1);
    if H > 0 {
      RowStartIsProduct(W, H - 1);
    }
    var y := 0;
    while y < H
      invariant 0 <= y <= H
      invariant y < H ==> iptr == RowStart(W, H - 1 - y)
      invariant FlipPrefix(image, imdata, W, H, y)
    {
      RowBefore(W, H - 1 - y, H);
      var row := imdata[iptr..iptr + W];
      FlipPrefixExtend(image, imdata, W, H, y, row);
      image := image + row;
      iptr := iptr - W;
      y := y + 1;
    }
  }

  /** The IMAGETYP keyword `writefits` records for an image type. */
  function ImageTypeName(t: int): (name: string)
    ensures name == "obj.-dark" <==> t == IMTYPE_AUTODARK
    ensures name == "dark" <==> t == IMTYPE_DARK
    ensures name == "object" <==> t != IMTYPE_AUTODARK && t != IMTYPE_DARK
  {
    if t == IMTYPE_AUTODARK then "obj.-dark"
    else if t == IMTYPE_DARK then "dark"
    else "object"
  }

  /** The image has data and a non-zero size, so `store_image` writes files. */
  predicate Storable(img: ImStorage)
  {
    img.imdata.Some? && img.W != 0 && img.H != 0
  }

  /**
   * `store_image`'s result: 1 when there is nothing to store; otherwise
   * bit 0 for a failed TIFF, bit 1 for a failed raw dump, bit 2 for a failed
   * FITS and bit 3 for a failed colour image, each only when that writer runs.
   */
  function StoreStatus(img: ImStorage, tiffFails: bool, rawFails: bool, fitsFails: bool,
                       debayerFails: bool): (status: bv8)
    ensures !Storable(img) ==> status == 1
    ensures Storable(img) ==> status & 0xf0 == 0
    ensures Storable(img) ==> (status & 1 != 0 <==> img.imformat & FORMAT_TIFF != 0 && tiffFails)
    ensures Storable(img) ==> (status & 2 != 0 <==> img.imformat & FORMAT_RAW != 0 && rawFails)
    ensures Storable(img) ==> (status & 4 != 0 <==> img.imformat & FORMAT_FITS != 0 && fitsFails)
    ensures Storable(img) ==> (status & 8 != 0 <==> img.imtype != IMTYPE_DARK && debayerFails)
  {
    if !Storable(img) then 1
    else
      (if img.imformat & FORMAT_TIFF != 0 && tiffFails then 1 else 0)
      | (if img.imformat & FORMAT_RAW != 0 && rawFails then 2 else 0)
      | (if img.imformat & FORMAT_FITS != 0 && fitsFails then 4 else 0)
      | (if img.imtype != IMTYPE_DARK && debayerFails then 8 else 0)
  }

  /** A status of 1 cannot tell "nothing to store" from "only the TIFF writer failed". */
  lemma StatusOneIsAmbiguous(img: ImStorage)
    requires Storable(img) && img.imformat == FORMAT_TIFF && img.imtype == IMTYPE_DARK
    ensures StoreStatus(img, true, false, false, false) == StoreStatus(img.(imdata := None), false, false, false, false)
  {
  }
}
