/**
 * The entry list of `generateZip`: one archive entry per stitched image,
 * named after the archive, numbered from 1 and given the extension of the
 * image format, with the base64 payload cut out of the data URL. Building
 * the archive itself (base64 decoding, compression) is left to the archive
 * library and is not modelled.
 */
module Archive {
  import opened Common
  import opened Decimal
  import Pipeline
  import Layout

  /** One `zip.file(name, data, { base64: true })` call; `data` is `undefined` when the URL has no comma. */
  datatype Entry = Entry(name: string, data: Option<string>)

  /** `s.split(',')`: the comma-separated fields, at least one. */
  function Split(s: string): (fields: seq<string>)
    ensures |fields| >= 1
    ensures |fields| >= 2 <==> ',' in s
    ensures forall i :: 0 <= i < |fields| ==> ',' !in fields[i]
  {
    if s == [] then [""]
    else
      var rest := Split(s[1..]);
      assert s == [s[0]] + s[1..];
      if s[0] == ',' then [""] + rest else [[s[0]] + rest[0]] + rest[1..]
  }

  /**
   * `dataUrl.split(',')[1]`: the text between the first comma and the next
   * one; `undefined` exactly when the URL holds no comma.
   */
  function Payload(dataUrl: string): (r: Option<string>)
    ensures r.Some? <==> ',' in dataUrl
    ensures r.Some? ==> ',' !in r.value
  {
    var fields := Split(dataUrl);
    if |fields| >= 2 then Some(fields[1]) else None
  }

  /** `png` for a data URL of a PNG image, `jpg` for anything else. */
  function Extension(dataUrl: string): string {
    if StartsWith(dataUrl, "data:image/png") then "png" else "jpg"
  }

  /** The entry name `${filename}-${index + 1}.${ext}`. */
  function EntryName(filename: string, index: nat, ext: string): string {
    filename + "-" + NatToString(index + 1) + "." + ext
  }

  /** The entry `generateZip` adds for the image at `index`. */
  function ZipEntry(filename: string, index: nat, dataUrl: string): Entry {
    Entry(EntryName(filename, index, Extension(dataUrl)), Payload(dataUrl))
  }

  /** The `forEach` of `generateZip`: one entry per image, in order. */
  method ZipEntries(images: seq<string>, filename: string) returns (entries: seq<Entry>)
    ensures |entries| == |images|
    ensures forall i :: 0 <= i < |images| ==> entries[i] == ZipEntry(filename, i, images[i])
  {
    entries := [];
    var index := 0;
    while index < |images|
      invariant index <= |images|
      invariant |entries| == index
      invariant forall i :: 0 <= i < index ==> entries[i] == ZipEntry(filename, i, images[i])
    {
      var dataUrl := images[index];
      var ext := if StartsWith(dataUrl, "data:image/png") then "png" else "jpg";
      var base64Data := Payload(dataUrl);
      entries := entries + [Entry(filename + "-" + NatToString(index + 1) + "." + ext, base64Data)];
      index := index + 1;
    }
  }

  /** A text without commas is a single field. */
  lemma {:induction false} SplitNoComma(s: string)
    requires ',' !in s
    ensures Split(s) == [s]
  {
    if s != [] {
      assert ',' !in s[1..];
      SplitNoComma(s[1..]);
      assert [s[0]] + s[1..] == s;
    }
  }

  /** Splitting `a,b` where `a` has no comma: `a`, then the fields of `b`. */
  lemma {:induction false} SplitAtComma(a: string, b: string)
    requires ',' !in a
    ensures Split(a + "," + b) == [a] + Split(b)
  {
    if a == [] {
      assert a + "," + b == [','] + b;
      assert (a + "," + b)[1..] == b;
    } else {
      assert ',' !in a[1..];
      var ab := a + "," + b;
      assert ab[0] == a[0] && ab[1..] == a[1..] + "," + b;
      SplitAtComma(a[1..], b);
      assert [a[0]] + a[1..] == a;
    }
  }

  /** In `digits.ext` the first dot is the one after the digits. */
  lemma DotAfterDigits(d: string, ext: string, m: nat)
    requires AllDigits(d) && m <= |d|
    ensures (d + "." + ext)[m] == '.' <==> m == |d|
  {
    if m < |d| {
      assert (d + "." + ext)[m] == d[m];
    }
  }

  /** Digits followed by a dot and an extension determine the digits. */
  lemma DigitsBeforeDot(d1: string, ext1: string, d2: string, ext2: string)
    requires AllDigits(d1) && AllDigits(d2)
    requires d1 + "." + ext1 == d2 + "." + ext2
    ensures d1 == d2
  {
    var m := Min(|d1|, |d2|);
    DotAfterDigits(d1, ext1, m);
    DotAfterDigits(d2, ext2, m);
    assert d1 == (d1 + "." + ext1)[..|d1|];
    assert d2 == (d2 + "." + ext2)[..|d2|];
  }

  /** Two different images never get the same entry name, whatever their formats. */
  lemma EntryNamesDistinct(filename: string, i: nat, j: nat, ext1: string, ext2: string)
    requires i != j
    ensures EntryName(filename, i, ext1) != EntryName(filename, j, ext2)
  {
    var d1, d2 := NatToString(i + 1), NatToString(j + 1);
    var prefix := filename + "-";
    var t1, t2 := d1 + "." + ext1, d2 + "." + ext2;
    assert EntryName(filename, i, ext1) == prefix + t1;
    assert EntryName(filename, j, ext2) == prefix + t2;
    if prefix + t1 == prefix + t2 {
      assert t1 == (prefix + t1)[|prefix|..];
      assert t2 == (prefix + t2)[|prefix|..];
      DigitsBeforeDot(d1, ext1, d2, ext2);
      NatToStringInjective(i + 1, j + 1);
    }
  }

  /** The entries of a list of images have pairwise different names. */
  lemma ZipEntryNamesDistinct(filename: string, images: seq<string>, entries: seq<Entry>)
    requires |entries| == |images|
    requires forall i :: 0 <= i < |images| ==> entries[i] == ZipEntry(filename, i, images[i])
    ensures forall i, j :: 0 <= i < j < |entries| ==> entries[i].name != entries[j].name
  {
    forall i, j | 0 <= i < j < |entries|
      ensures entries[i].name != entries[j].name
    {
      EntryNamesDistinct(filename, i, j, Extension(images[i]), Extension(images[j]));
    }
  }

  /**
   * A data URL `toDataURL` gives gets the extension of its format when the
   * canvas has pixels and the browser serialises it: `png` for high
   * quality, `jpg` for normal. Otherwise the data URL is `data:,`, which
   * gets `jpg` and an empty payload.
   */
  lemma ExtensionMatchesFormat(c: Layout.Composite, q: Pipeline.Quality, encode: Pipeline.Encoder)
    ensures var encoded := c.width > 0 && c.height > 0 && encode(c, Pipeline.Mime(q), Pipeline.EncoderQuality(q)).Some?;
            Extension(Pipeline.DataUrl(c, Pipeline.Mime(q), Pipeline.EncoderQuality(q), encode))
            == (if q == Pipeline.High && encoded then "png" else "jpg")
    ensures var encoded := c.width > 0 && c.height > 0 && encode(c, Pipeline.Mime(q), Pipeline.EncoderQuality(q)).Some?;
            !encoded ==> Payload(Pipeline.DataUrl(c, Pipeline.Mime(q), Pipeline.EncoderQuality(q), encode)) == Some("")
  {
    var url := Pipeline.DataUrl(c, Pipeline.Mime(q), Pipeline.EncoderQuality(q), encode);
    var data := encode(c, Pipeline.Mime(q), Pipeline.EncoderQuality(q));
    if c.width == 0 || c.height == 0 || data.None? {
      assert url == "data:" + "," + "";
      SplitAtComma("data:", "");
    } else if q == Pipeline.Normal {
      assert url[11] == 'j';
    } else {
      assert url[..14] == "data:image/png";
    }
  }

  /**
   * The image stitched from page canvases whose sides are all positive,
   * as `drawImage` demands of each, is named `png` exactly at high quality
   * when the browser serialises the canvas, and carries the encoder's
   * output as its payload; a canvas it cannot serialise gives `data:,`,
   * named `jpg` with an empty payload.
   */
  lemma StitchedImageEntry(config: Pipeline.StitchConfig, pages: seq<Layout.Dim>, encode: Pipeline.Encoder)
    requires |pages| > 0
    requires forall k :: 0 <= k < |pages| ==> pages[k].width > 0 && pages[k].height > 0
    ensures var c := Layout.Layout(config.direction, pages, Pipeline.GapSize(config), config.border,
                                   Pipeline.BorderWidth(config.quality));
            var data := encode(c, Pipeline.Mime(config.quality), Pipeline.EncoderQuality(config.quality));
            Extension(Pipeline.StitchedImage(config, pages, encode))
            == (if config.quality == Pipeline.High && data.Some? then "png" else "jpg")
    ensures var c := Layout.Layout(config.direction, pages, Pipeline.GapSize(config), config.border,
                                   Pipeline.BorderWidth(config.quality));
            var data := encode(c, Pipeline.Mime(config.quality), Pipeline.EncoderQuality(config.quality));
            && (data.None? ==> Payload(Pipeline.StitchedImage(config, pages, encode)) == Some(""))
            && (data.Some? && ',' !in data.value ==> Payload(Pipeline.StitchedImage(config, pages, encode)) == Some(data.value))
  {
    var c := Layout.Layout(config.direction, pages, Pipeline.GapSize(config), config.border,
                           Pipeline.BorderWidth(config.quality));
    var data := encode(c, Pipeline.Mime(config.quality), Pipeline.EncoderQuality(config.quality));
    Layout.PagesFillCanvas(config.direction, pages, Pipeline.GapSize(config));
    ExtensionMatchesFormat(c, config.quality, encode);
    if data.Some? && ',' !in data.value {
      PayloadOfDataUrl(c, config.quality, encode);
    }
  }

  /**
   * The payload of an encoded image is the base64 data the encoder
   * produced, since neither the MIME type nor base64 text holds a comma.
   */
  lemma PayloadOfDataUrl(c: Layout.Composite, q: Pipeline.Quality, encode: Pipeline.Encoder)
    requires c.width > 0 && c.height > 0
    requires var data := encode(c, Pipeline.Mime(q), Pipeline.EncoderQuality(q));
             data.Some? && ',' !in data.value
    ensures Payload(Pipeline.DataUrl(c, Pipeline.Mime(q), Pipeline.EncoderQuality(q), encode))
            == Some(encode(c, Pipeline.Mime(q), Pipeline.EncoderQuality(q)).value)
  {
    var data := encode(c, Pipeline.Mime(q), Pipeline.EncoderQuality(q)).value;
    var head := "data:" + Pipeline.Mime(q) + ";base64";
    assert Pipeline.DataUrl(c, Pipeline.Mime(q), Pipeline.EncoderQuality(q), encode) == head + "," + data;
    SplitAtComma(head, data);
    SplitNoComma(data);
  }
}
