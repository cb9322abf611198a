/** The file-name and EXIF helpers of the web front end (main.py). */
module Files {
  import opened Results

  /** Where the last '.' of `s` is, if there is one: the split point of
      `rsplit('.', 1)`. */
  function LastDot(s: string): (r: Option<nat>)
    ensures r.None? <==> '.' !in s
    ensures r.Some? ==> r.value < |s| && s[r.value] == '.' && '.' !in s[r.value + 1..]
  {
    if |s| == 0 then None
    else if s[|s| - 1] == '.' then Some(|s| - 1)
    else
      var r := LastDot(s[..|s| - 1]);
      assert s == s[..|s| - 1] + [s[|s| - 1]];
      if r.Some? then assert s[r.value + 1..] == s[..|s| - 1][r.value + 1..] + [s[|s| - 1]]; r
      else r
  }

  /** Any '.' followed by no other '.' is the last one. */
  lemma LastDotIs(s: string, i: nat)
    requires i < |s| && s[i] == '.' && '.' !in s[i + 1..]
    ensures LastDot(s) == Some(i)
  {
  }

  /** Python's `str.lower` on ASCII letters. */
  function LowerChar(c: char): (d: char)
    ensures d == '.' <==> c == '.'
  {
    if 'A' <= c <= 'Z' then (c as int + 32) as char else c
  }

  function Lower(s: string): (r: string)
    ensures |r| == |s| && forall i :: 0 <= i < |s| ==> r[i] == LowerChar(s[i])
  {
    seq(|s|, i requires 0 <= i < |s| => LowerChar(s[i]))
  }

  /** `get_file_extension`: `None` stands for the `False` returned for a
      name without '.'; otherwise the text after the last '.', lower-cased. */
  function FileExtension(name: string): (r: Option<string>)
    ensures r.None? <==> '.' !in name
  {
    match LastDot(name)
    case None => None
    case Some(i) => Some(Lower(name[i + 1..]))
  }

  /** `get_filename`: `None` for a name without '.'; otherwise the text
      before the last '.'. */
  function FileStem(name: string): (r: Option<string>)
    ensures r.None? <==> '.' !in name
  {
    match LastDot(name)
    case None => None
    case Some(i) => Some(name[..i])
  }

  /** Stem, '.' and the original suffix give back the name; the suffix has
      no '.' and lower-cases to the extension. */
  lemma StemAndExtension(name: string)
    requires '.' in name
    ensures var stem := FileStem(name).value;
      && |stem| < |name|
      && name == stem + "." + name[|stem| + 1..]
      && '.' !in name[|stem| + 1..]
      && FileExtension(name).value == Lower(name[|stem| + 1..])
  {
    var i := LastDot(name).value;
    assert name == name[..i] + "." + name[i + 1..];
  }

  /** `ALLOWED_EXTENSIONS` */
  const AllowedExtensions: set<string> := {"jpg", "jpeg"}

  /** `allowed_file`: `False` is not in the set of extensions. */
  predicate AllowedFile(name: string): (b: bool)
    ensures b ==> '.' in name
  {
    var e := FileExtension(name);
    e.Some? && e.value in AllowedExtensions
  }

  predicate EndsWith(s: string, suffix: string)
  {
    |suffix| <= |s| && s[|s| - |suffix|..] == suffix
  }

  /** A file is allowed exactly when its lower-cased name ends in ".jpg" or
      ".jpeg". */
  lemma AllowedFileIff(name: string)
    ensures AllowedFile(name) <==> EndsWith(Lower(name), ".jpg") || EndsWith(Lower(name), ".jpeg")
  {
    if AllowedFile(name) {
      ExtensionEnds(name);
      var ext := FileExtension(name).value;
      if ext == "jpg" {
        assert "." + ext == ".jpg";
      } else {
        assert "." + ext == ".jpeg";
      }
    }
    if EndsWith(Lower(name), ".jpg") {
      assert "." + "jpg" == ".jpg";
      EndsWithDotIs(name, "jpg");
    } else if EndsWith(Lower(name), ".jpeg") {
      assert "." + "jpeg" == ".jpeg";
      EndsWithDotIs(name, "jpeg");
    }
  }

  /** The lower-cased name ends with '.' and the extension. */
  lemma ExtensionEnds(name: string)
    requires '.' in name
    ensures EndsWith(Lower(name), "." + FileExtension(name).value)
  {
    var i := LastDot(name).value;
    var ext := Lower(name[i + 1..]);
    assert Lower(name)[i..] == "." + ext;
  }

  /** If the lower-cased name ends with '.' and a suffix free of '.', that
      suffix is the extension. */
  lemma EndsWithDotIs(name: string, ext: string)
    requires '.' !in ext && EndsWith(Lower(name), "." + ext)
    ensures FileExtension(name) == Some(ext)
  {
    var i := |name| - |ext| - 1;
    assert Lower(name)[i] == ("." + ext)[0];
    NoDotAfter(name, ext);
    LastDotIs(name, i);
    LowerSuffix(name, ext);
  }

  /** The name has no '.' after the one that starts the suffix. */
  lemma NoDotAfter(name: string, ext: string)
    requires '.' !in ext && EndsWith(Lower(name), "." + ext)
    ensures '.' !in name[|name| - |ext|..]
  {
    var i := |name| - |ext| - 1;
    var t := name[i + 1..];
    forall k | 0 <= k < |t|
      ensures t[k] != '.'
    {
      assert Lower(name)[i + 1 + k] == ("." + ext)[k + 1];
    }
  }

  /** The suffix lower-cases to `ext`. */
  lemma LowerSuffix(name: string, ext: string)
    requires EndsWith(Lower(name), "." + ext)
    ensures Lower(name[|name| - |ext|..]) == ext
  {
    var i := |name| - |ext| - 1;
    forall k | 0 <= k < |ext|
      ensures Lower(name[i + 1..])[k] == ext[k]
    {
      assert Lower(name)[i + 1 + k] == ("." + ext)[k + 1];
    }
  }

  /** The decimal digits of `n`, as `str(n)` writes them. */
  function Decimal(n: nat): (s: string)
    ensures |s| > 0
    decreases n
  {
    if n < 10 then [Digit(n)] else Decimal(n / 10) + [Digit(n % 10)]
  }

  function Digit(d: nat): (c: char)
    requires d < 10
    ensures '0' <= c <= '9'
  {
    ('0' as int + d) as char
  }

  /** The value of a string of decimal digits. */
  function DecimalValue(s: string): (v: int)
  {
    if s == [] then 0 else DecimalValue(s[..|s| - 1]) * 10 + (s[|s| - 1] as int - '0' as int)
  }

  /** `int(str(n)) == n`: reading the digits back gives the number. */
  lemma {:induction false} DecimalRoundTrip(n: nat)
    ensures DecimalValue(Decimal(n)) == n
    decreases n
  {
    var s := Decimal(n);
    if n < 10 {
      assert s[..|s| - 1] == [];
    } else {
      DecimalRoundTrip(n / 10);
      assert s[..|s| - 1] == Decimal(n / 10);
    }
  }

  /** The name of output `i` (counting from 1) of `count` outputs of one
      upload, as in main.py:75-81. */
  function OutputName(stem: string, ext: string, count: nat, i: nat): (name: string)
  {
    if count == 1 then stem + "-framed." + ext else stem + "-framed-" + Decimal(i) + "." + ext
  }

  /** The names of the outputs of one upload (main.py:70-82): one output is
      `stem-framed.ext`, several are `stem-framed-1.ext`, `stem-framed-2.ext`
      and so on; a name without '.' fails on the first output. */
  method OutputNames(filename: string, count: nat) returns (r: Result<seq<string>>)
    ensures r.Ok? <==> '.' in filename || count == 0
    ensures r.Ok? ==> |r.value| == count
    ensures r.Ok? && count > 0 ==> forall i :: 0 <= i < count ==>
      r.value[i] == OutputName(FileStem(filename).value, FileExtension(filename).value, count, i + 1)
  {
    var names: seq<string> := [];
    var i := 0;
    while i < count
      invariant 0 <= i <= count
      invariant i > 0 ==> '.' in filename
      invariant |names| == i
      invariant forall k :: 0 <= k < i ==>
        names[k] == OutputName(FileStem(filename).value, FileExtension(filename).value, count, k + 1)
    {
      var stem := FileStem(filename);
      var ext := FileExtension(filename);
      if stem.None? || ext.None? {
        return Err(NoDot);
      }
      var name;
      if count == 1 {
        name := stem.value + "-framed." + ext.value;
      } else {
        name := stem.value + "-framed-" + Decimal(i + 1) + "." + ext.value;
      }
      names := names + [name];
      i := i + 1;
    }
    return Ok(names);
  }

  /** Two different outputs of one upload never get the same name. */
  lemma OutputNamesDistinct(stem: string, ext: string, count: nat, i: nat, j: nat)
    requires 1 <= i <= count && 1 <= j <= count && i != j
    ensures OutputName(stem, ext, count, i) != OutputName(stem, ext, count, j)
  {
    var pre := stem + "-framed-";
    var a, b := Decimal(i), Decimal(j);
    if pre + a + "." + ext == pre + b + "." + ext {
      assert |a| == |b|;
      assert a == (pre + a + "." + ext)[|pre|..|pre| + |a|];
      assert b == (pre + b + "." + ext)[|pre|..|pre| + |b|];
      DecimalRoundTrip(i);
      DecimalRoundTrip(j);
    }
  }

  /** The value of an EXIF tag: text, or raw bytes. */
  newtype Byte = x: int | 0 <= x < 256

  datatype TagValue = Text(text: string) | Bytes(bytes: seq<Byte>)

  const DateTime := 306
  const Artist := 315
  const Copyright := 33432
  const Software := 305
  const XPKeywords := 0x9C9E

  /** The original tags `get_exif` keeps. */
  const KeptTags: set<int> := {DateTime, Artist, Copyright}

  /** Python's `str.encode("utf16")` on a little-endian machine: the byte
      order mark FF FE, then each character as two bytes, low byte first.
      Only characters of the Basic Multilingual Plane are modelled. */
  function Utf16(s: string): (b: seq<Byte>)
    requires forall i :: 0 <= i < |s| ==> s[i] as int < 0x10000
    ensures |b| == 2 + 2 * |s|
  {
    [0xFF, 0xFE] + Utf16Units(s)
  }

  function Utf16Units(s: string): (b: seq<Byte>)
    requires forall i :: 0 <= i < |s| ==> s[i] as int < 0x10000
    ensures |b| == 2 * |s|
  {
    seq(2 * |s|, k requires 0 <= k < 2 * |s| =>
      if k % 2 == 0 then (s[k / 2] as int % 256) as Byte else (s[k / 2] as int / 256) as Byte)
  }

  /** Reading the bytes back as little-endian UTF-16 code units: the
      reference decoder `Utf16RoundTrip` checks the encoding against. */
  function Utf16UnitsDecode(b: seq<Byte>): (r: Option<string>)
    decreases |b|
  {
    if |b| < 2 then (if b == [] then Some([]) else None)
    else
      var u := b[0] as int + 256 * b[1] as int;
      if 0xD800 <= u < 0xE000 then None
      else
        match Utf16UnitsDecode(b[2..])
        case None => None
        case Some(rest) => Some([u as char] + rest)
  }

  /** Decoding the encoded units gives the text back. */
  lemma {:induction false} Utf16RoundTrip(s: string)
    requires forall i :: 0 <= i < |s| ==> s[i] as int < 0x10000
    ensures Utf16UnitsDecode(Utf16Units(s)) == Some(s)
  {
    if s != [] {
      Utf16RoundTrip(s[1..]);
      var b := Utf16Units(s);
      forall k | 0 <= k < |b| - 2
        ensures b[2..][k] == Utf16Units(s[1..])[k]
      {
        assert (k + 2) / 2 == k / 2 + 1 && (k + 2) % 2 == k % 2;
      }
      assert b[2..] == Utf16Units(s[1..]);
      assert b[0] as int + 256 * b[1] as int == s[0] as int;
      assert s == [s[0]] + s[1..];
    }
  }

  /** The XPKeywords value `get_exif` writes: "Frame It;" as UTF-16 bytes
      (`FrameItKeywordsBytes`). */
  const FrameItKeywords: seq<Byte> :=
    [0xFF, 0xFE, 0x46, 0, 0x72, 0, 0x61, 0, 0x6D, 0, 0x65, 0, 0x20, 0, 0x49, 0, 0x74, 0, 0x3B, 0]

  /** The loop of main.py:136-138: every stored tag other than DateTime,
      Artist and Copyright is deleted; the survivors keep their values. */
  method KeepTags(stored: map<int, TagValue>) returns (kept: map<int, TagValue>)
    ensures kept.Keys == stored.Keys * KeptTags
    ensures forall k :: k in kept ==> kept[k] == stored[k]
  {
    kept := stored;
    var keys := stored.Keys;
    while keys != {}
      invariant keys <= stored.Keys
      invariant forall k :: k in kept <==> k in stored && (k in keys || k in KeptTags)
      invariant forall k :: k in kept ==> kept[k] == stored[k]
      decreases keys
    {
      HasElement(keys);
      var k :| k in keys;
      if k != DateTime && k != Artist && k != Copyright {
        kept := kept - {k};
      }
      keys := keys - {k};
    }
    assert forall k :: k in kept.Keys <==> k in stored.Keys * KeptTags;
  }

  /** A non-empty set has an element. */
  lemma HasElement(s: set<int>)
    requires s != {}
    ensures exists x :: x in s
  {
    assert (forall x :: x !in s) ==> s == {};
  }

  /** `get_exif`: of the stored tags (`None` when the image has none) only
      DateTime, Artist and Copyright survive; then Artist and Software are
      set to "Frame It" and XPKeywords to "Frame It;" in UTF-16. */
  method GetExif(stored: Option<map<int, TagValue>>) returns (exif: map<int, TagValue>)
    ensures exif.Keys == (if stored.Some? then stored.value.Keys * KeptTags else {}) + {Artist, Software, XPKeywords}
    ensures exif[Artist] == Text("Frame It") && exif[Software] == Text("Frame It")
    ensures exif[XPKeywords] == Bytes(FrameItKeywords)
    ensures stored.Some? && DateTime in stored.value ==> exif[DateTime] == stored.value[DateTime]
    ensures stored.Some? && Copyright in stored.value ==> exif[Copyright] == stored.value[Copyright]
  {
    exif := map[];
    if stored.Some? {
      exif := KeepTags(stored.value);
    }
    exif := exif[Artist := Text("Frame It")];
    exif := exif[Software := Text("Frame It")];
    exif := exif[XPKeywords := Bytes(FrameItKeywords)];
  }

  /** Whatever was stored, the tags `get_exif` returns are among five. */
  lemma ExifTagsBounded(stored: Option<map<int, TagValue>>, exif: map<int, TagValue>)
    requires exif.Keys == (if stored.Some? then stored.value.Keys * KeptTags else {}) + {Artist, Software, XPKeywords}
    ensures exif.Keys <= {Software, DateTime, Artist, Copyright, XPKeywords}
    ensures {Software, Artist, XPKeywords} <= exif.Keys
  {
  }

  /** The keywords are `"Frame It;".encode("utf16")`: the byte order mark,
      then one byte pair per character. */
  lemma FrameItKeywordsBytes()
    ensures FrameItKeywords == Utf16("Frame It;")
  {
  }
}
