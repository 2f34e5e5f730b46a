/** Decoding a PNG as scripts/acceptance/pngcheck.py does: the chunk walk, the row limit
    and the expansion of every colour type to RGBA. zlib's inflate is a parameter. */
module Png {
  import opened Common
  import opened PngFilter

  const SIGNATURE: seq<byte> := [0x89, 0x50, 0x4E, 0x47, 0x0D, 0x0A, 0x1A, 0x0A]
  const IHDR: seq<byte> := [0x49, 0x48, 0x44, 0x52]
  const PLTE: seq<byte> := [0x50, 0x4C, 0x54, 0x45]
  const TRNS: seq<byte> := [0x74, 0x52, 0x4E, 0x53]
  const IDAT: seq<byte> := [0x49, 0x44, 0x41, 0x54]
  const IEND: seq<byte> := [0x49, 0x45, 0x4E, 0x44]

  datatype Header = Header(width: nat, height: nat, depth: byte, colour: byte, interlace: byte)

  datatype Chunks = Chunks(header: Option<Header>, palette: Option<seq<byte>>, transparency: Option<seq<byte>>, idat: seq<byte>)

  const NOTHING := Chunks(None, None, None, [])

  datatype Image = Image(width: nat, height: nat, rgba: seq<byte>)

  type Inflate = seq<byte> -> Option<seq<byte>>

  // ----- the chunk walk -----------------------------------------------------------------

  /** What one chunk other than IEND adds; an IHDR of the wrong length is `struct.error`. */
  function Apply(c: Chunks, kind: seq<byte>, body: seq<byte>): Result<Chunks> {
    if kind == IHDR then
      if |body| != 13 then Err(BadHeader)
      else Ok(c.(header := Some(Header(FromBytes(body[0..4]), FromBytes(body[4..8]), body[8], body[9], body[12]))))
    else if kind == PLTE then Ok(c.(palette := Some(body)))
    else if kind == TRNS then Ok(c.(transparency := Some(body)))
    else if kind == IDAT then Ok(c.(idat := c.idat + body))
    else Ok(c)
  }

  /** The chunks from `pos` on; a chunk's checksum is stepped over and may be missing. */
  function Walk(data: seq<byte>, pos: nat, c: Chunks): Result<Chunks>
    decreases if pos < |data| then |data| - pos else 0
  {
    if pos + 8 > |data| then Ok(c)
    else
      var length, kind := FromBytes(data[pos..pos + 4]), data[pos + 4..pos + 8];
      if pos + 8 + length > |data| then Err(TruncatedChunk(pos))
      else if kind == IEND then Ok(c)
      else
        match Apply(c, kind, data[pos + 8..pos + 8 + length])
        case Err(e) => Err(e)
        case Ok(next) => Walk(data, pos + 12 + length, next)
  }

  /** The `while` loop of `decode`. */
  method ReadChunks(data: seq<byte>) returns (r: Result<Chunks>)
    ensures r == Walk(data, |SIGNATURE|, NOTHING)
  {
    var pos: nat := |SIGNATURE|;
    var c := NOTHING;
    while pos + 8 <= |data|
      invariant Walk(data, |SIGNATURE|, NOTHING) == Walk(data, pos, c)
      decreases if pos < |data| then |data| - pos else 0
    {
      var length, kind := FromBytes(data[pos..pos + 4]), data[pos + 4..pos + 8];
      if pos + 8 + length > |data| {
        return Err(TruncatedChunk(pos));
      }
      if kind == IEND {
        break;
      }
      var next := Apply(c, kind, data[pos + 8..pos + 8 + length]);
      if next.Err? {
        return Err(next.error);
      }
      pos, c := pos + 12 + length, next.value;
    }
    return Ok(c);
  }

  // ----- colours ------------------------------------------------------------------------

  function Channels(colour: byte): Option<nat> {
    if colour == 0 || colour == 3 then Some(1)
    else if colour == 2 then Some(3)
    else if colour == 4 then Some(2)
    else if colour == 6 then Some(4)
    else None
  }

  datatype Colours = Colours(colour: byte, palette: seq<byte>, transparency: seq<byte>)

  /** One pixel's bytes as RGBA. */
  function Rgba(k: Colours, pixel: nat, px: seq<byte>): (r: Result<seq<byte>>)
    requires Channels(k.colour) == Some(|px|)
    ensures r.Ok? ==> |r.value| == 4
  {
    if k.colour == 6 then Ok(px)
    else if k.colour == 2 then Ok(px + [255])
    else if k.colour == 0 then Ok([px[0], px[0], px[0], 255])
    else if k.colour == 4 then Ok([px[0], px[0], px[0], px[1]])
    else
      var index, entries := px[0], |k.palette| / 3;
      if index >= entries then Err(NoSuchEntry(pixel, index, entries))
      else Ok(k.palette[index * 3..index * 3 + 3] + [if index < |k.transparency| then k.transparency[index] else 255])
  }

  /** What each colour type writes for an RGBA pixel; a palette writes the pixel's entry. */
  ghost predicate Writes(k: Colours, px: seq<byte>, q: seq<byte>)
    requires Channels(k.colour) == Some(|px|)
  {
    var grey := |q| == 4 && q[1] == q[0] && q[2] == q[0];
    |q| == 4
    && if k.colour == 0 then grey && q[3] == 255 && px == [q[0]]
       else if k.colour == 2 then q[3] == 255 && px == q[..3]
       else if k.colour == 4 then grey && px == [q[0], q[3]]
       else if k.colour == 6 then px == q
       else 3 * (px[0] as int) + 3 <= |k.palette| && q[..3] == k.palette[3 * (px[0] as int)..][..3]
            && q[3] == (if px[0] < |k.transparency| then k.transparency[px[0]] else 255)
  }

  /** Expansion inverts what the colour type writes, pixel by pixel; it fails exactly at an
      entry the palette does not have. */
  lemma {:induction false} ExpandsWhatWasWritten(k: Colours, pixel: nat, px: seq<byte>, q: seq<byte>)
    requires Channels(k.colour) == Some(|px|)
    ensures Rgba(k, pixel, px) == Ok(q) <==> Writes(k, px, q)
  {
    if k.colour == 3 {
      var index, entries := px[0], |k.palette| / 3;
      assert index < entries <==> 3 * (index as int) + 3 <= |k.palette|;
      if index < entries {
        assert k.palette[3 * (index as int)..][..3] == k.palette[index * 3..index * 3 + 3];
        var alpha := if index < |k.transparency| then k.transparency[index] else 255;
        assert |q| == 4 ==> q == q[..3] + [q[3]];
      }
    } else if |q| == 4 {
      assert q == [q[0], q[1], q[2], q[3]];
      assert q[..3] + [q[3]] == q;
      assert q[..3] == px ==> px + [q[3]] == q;
    }
    if k.colour == 2 {
      assert (px + [255])[..3] == px;
    }
  }

  /** The first n pixels as RGBA, or the first pixel's error. */
  function Expanded(k: Colours, channels: nat, pixels: seq<byte>, n: nat): (r: Result<seq<byte>>)
    requires Channels(k.colour) == Some(channels) && Size(n, channels) <= |pixels|
    ensures r.Ok? ==> |r.value| == Size(n, 4)
  {
    if n == 0 then Ok([])
    else
      var above := Expanded(k, channels, pixels, n - 1);
      if above.Err? then above
      else Append(above.value, Rgba(k, n - 1, pixels[Size(n - 1, channels)..Size(n, channels)]))
  }

  function Append(done: seq<byte>, next: Result<seq<byte>>): Result<seq<byte>> {
    if next.Ok? then Ok(done + next.value) else next
  }

  lemma {:induction false} ErrorStays(k: Colours, channels: nat, pixels: seq<byte>, n: nat, m: nat)
    requires Channels(k.colour) == Some(channels) && m <= n && Size(n, channels) <= |pixels|
    ensures Size(m, channels) <= |pixels|
    ensures Expanded(k, channels, pixels, m).Err? ==> Expanded(k, channels, pixels, n) == Expanded(k, channels, pixels, m)
  {
    if m < n {
      ErrorStays(k, channels, pixels, n - 1, m);
    }
  }

  lemma {:induction false} PixelMore(k: Colours, channels: nat, pixels: seq<byte>, i: nat, done: seq<byte>, px: Result<seq<byte>>)
    requires Channels(k.colour) == Some(channels) && Size(i + 1, channels) <= |pixels|
    requires Expanded(k, channels, pixels, i) == Ok(done)
    requires px == Rgba(k, i, pixels[Size(i, channels)..Size(i, channels) + channels])
    ensures Expanded(k, channels, pixels, i + 1) == Append(done, px)
  {
  }

  /** The four loops over the pixels, one per colour type, as one. */
  method Expand(k: Colours, channels: nat, pixels: seq<byte>, n: nat, rgba: array<byte>) returns (r: Result<seq<byte>>)
    requires Channels(k.colour) == Some(channels) && |pixels| == Size(n, channels) && rgba.Length == Size(n, 4)
    modifies rgba
    ensures r == Expanded(k, channels, pixels, n)
  {
    var i: nat, from: nat, at: nat := 0, 0, 0;
    ghost var done: seq<byte> := [];
    while i < n
      invariant 0 <= i <= n && from == Size(i, channels) <= |pixels| && at == Size(i, 4) <= rgba.Length
      invariant rgba[..at] == done && Expanded(k, channels, pixels, i) == Ok(done)
    {
      SizeGrows(i + 1, n, channels);
      SizeGrows(i + 1, n, 4);
      var px := Rgba(k, i, pixels[from..from + channels]);
      PixelMore(k, channels, pixels, i, done, px);
      if px.Err? {
        ErrorStays(k, channels, pixels, n, i + 1);
        return Err(px.error);
      }
      PutPixel(rgba, at, px.value);
      assert rgba[..at + 4] == done + px.value;
      done := done + px.value;
      i, from, at := i + 1, from + channels, at + 4;
    }
    assert rgba[..at] == rgba[..];
    return Ok(rgba[..]);
  }

  /** Pixel i of the samples is what the colour type writes for pixel i of the image. */
  ghost predicate WrittenAt(k: Colours, channels: nat, samples: seq<byte>, rgba: seq<byte>, i: nat)
    requires Channels(k.colour) == Some(channels)
  {
    Size(i + 1, channels) <= |samples| && Size(i + 1, 4) <= |rgba|
    && Writes(k, samples[Size(i, channels)..Size(i + 1, channels)], rgba[Size(i, 4)..Size(i + 1, 4)])
  }

  ghost predicate Written(k: Colours, channels: nat, samples: seq<byte>, rgba: seq<byte>, n: nat)
    requires Channels(k.colour) == Some(channels)
  {
    forall i: nat :: i < n ==> WrittenAt(k, channels, samples, rgba, i)
  }

  /** Appending gives a longer prefix exactly when both parts match. */
  lemma {:induction false} AppendsExactly(above: Result<seq<byte>>, px: Result<seq<byte>>, rgba: seq<byte>, n: nat)
    requires n + 4 <= |rgba| && (above.Ok? ==> |above.value| == n) && (px.Ok? ==> |px.value| == 4)
    ensures (if above.Err? then above else Append(above.value, px)) == Ok(rgba[..n + 4])
       <==> above == Ok(rgba[..n]) && px == Ok(rgba[n..n + 4])
  {
    assert rgba[..n + 4] == rgba[..n] + rgba[n..n + 4];
    if above.Ok? && px.Ok? && above.value + px.value == rgba[..n + 4] {
      assert (above.value + px.value)[..n] == above.value && (above.value + px.value)[n..] == px.value;
      assert (rgba[..n] + rgba[n..n + 4])[..n] == rgba[..n] && (rgba[..n] + rgba[n..n + 4])[n..] == rgba[n..n + 4];
    }
  }

  /** Expansion gives an image exactly when its pixels were written as the samples. */
  lemma {:induction false} ExpandsExactly(k: Colours, channels: nat, samples: seq<byte>, rgba: seq<byte>, n: nat)
    requires Channels(k.colour) == Some(channels) && Size(n, channels) <= |samples| && Size(n, 4) <= |rgba|
    ensures Expanded(k, channels, samples, n) == Ok(rgba[..Size(n, 4)]) <==> Written(k, channels, samples, rgba, n)
  {
    if n > 0 {
      ExpandsExactly(k, channels, samples, rgba, n - 1);
      var px, q := samples[Size(n - 1, channels)..Size(n, channels)], rgba[Size(n - 1, 4)..Size(n, 4)];
      AppendsExactly(Expanded(k, channels, samples, n - 1), Rgba(k, n - 1, px), rgba, Size(n - 1, 4));
      ExpandsWhatWasWritten(k, n - 1, px, q);
      WrittenMore(k, channels, samples, rgba, n - 1);
    }
  }

  lemma {:induction false} WrittenMore(k: Colours, channels: nat, samples: seq<byte>, rgba: seq<byte>, n: nat)
    requires Channels(k.colour) == Some(channels)
    ensures Written(k, channels, samples, rgba, n + 1)
       <==> Written(k, channels, samples, rgba, n) && WrittenAt(k, channels, samples, rgba, n)
  {
  }

  method PutPixel(rgba: array<byte>, at: nat, px: seq<byte>)
    requires |px| == 4 && at + 4 <= rgba.Length
    modifies rgba
    ensures rgba[..at + 4] == old(rgba[..at]) + px
  {
    rgba[at], rgba[at + 1], rgba[at + 2], rgba[at + 3] := px[0], px[1], px[2], px[3];
  }

  // ----- decode -------------------------------------------------------------------------

  function Rows(height: nat, maxRows: Option<int>): nat {
    if maxRows.Some? && 0 < maxRows.value < height then maxRows.value else height
  }

  /** `decode` once the chunks are read. */
  function Render(c: Chunks, maxRows: Option<int>, inflate: Inflate): Result<Image> {
    if c.header.None? then Err(NoHeader) else
    var h := c.header.value;
    if h.width == 0 || h.height == 0 then Err(NoPixels)
    else if h.depth != 8 then Err(Depth(h.depth))
    else if Channels(h.colour).None? then Err(ColourType(h.colour))
    else if h.interlace != 0 then Err(Interlaced)
    else if h.colour == 3 && c.palette.None? then Err(NoPalette)
    else
      match inflate(c.idat)
      case None => Err(NotInflated)
      case Some(raw) => Pixels(h.width, Rows(h.height, maxRows), ColoursOf(c, h.colour), raw)
  }

  /** A missing or empty tRNS chunk makes no pixel transparent. */
  function ColoursOf(c: Chunks, colour: byte): (k: Colours)
    ensures k.colour == colour
    ensures k.palette == match c.palette case Some(p) => p case None => []
    ensures k.transparency == match c.transparency case Some(t) => t case None => []
  {
    Colours(colour, if c.palette.Some? then c.palette.value else [],
            if c.transparency.Some? then c.transparency.value else [])
  }

  /** The inflated data to an image of `rows` rows. */
  function Pixels(width: nat, rows: nat, k: Colours, raw: seq<byte>): (r: Result<Image>)
    requires Channels(k.colour).Some?
    ensures r.Ok? ==> r.value.width == width && r.value.height == rows && |r.value.rgba| == Size(rows * width, 4)
  {
    var channels := Channels(k.colour).value;
    match Unfiltered(raw, width, rows, channels)
    case Err(e) => Err(e)
    case Ok(pixels) =>
      PixelCount(width, rows, channels);
      match Expanded(k, channels, pixels, rows * width)
      case Err(e) => Err(e)
      case Ok(rgba) => Ok(Image(width, rows, rgba))
  }

  lemma {:induction false} PixelCount(width: nat, rows: nat, channels: nat)
    ensures rows * (width * channels) == rows * width * channels
    ensures rows * width >= 0 && Size(rows * width, channels) == rows * width * channels
  {
    SizeIsProduct(rows * width, channels);
  }

  /** `decode`. */
  function Decoded(data: seq<byte>, maxRows: Option<int>, inflate: Inflate): Result<Image> {
    if !(SIGNATURE <= data) then Err(BadSignature)
    else
      match Walk(data, |SIGNATURE|, NOTHING)
      case Err(e) => Err(e)
      case Ok(c) => Render(c, maxRows, inflate)
  }

  method Decode(data: seq<byte>, maxRows: Option<int>, inflate: Inflate) returns (r: Result<Image>)
    ensures r == Decoded(data, maxRows, inflate)
  {
    if !(SIGNATURE <= data) {
      return Err(BadSignature);
    }
    var chunks := ReadChunks(data);
    if chunks.Err? {
      return Err(chunks.error);
    }
    var c := chunks.value;
    if c.header.None? { return Err(NoHeader); }
    var h := c.header.value;
    if h.width == 0 || h.height == 0 { return Err(NoPixels); }
    if h.depth != 8 { return Err(Depth(h.depth)); }
    if Channels(h.colour).None? { return Err(ColourType(h.colour)); }
    if h.interlace != 0 { return Err(Interlaced); }
    if h.colour == 3 && c.palette.None? { return Err(NoPalette); }
    var raw := inflate(c.idat);
    if raw.None? { return Err(NotInflated); }
    r := Paint(h.width, Rows(h.height, maxRows), ColoursOf(c, h.colour), raw.value);
  }

  method Paint(width: nat, rows: nat, k: Colours, raw: seq<byte>) returns (r: Result<Image>)
    requires Channels(k.colour).Some?
    ensures r == Pixels(width, rows, k, raw)
  {
    var channels := Channels(k.colour).value;
    var pixels := Unfilter(raw, width, rows, channels);
    if pixels.Err? {
      return Err(pixels.error);
    }
    PixelCount(width, rows, channels);
    if k.colour == 6 {
      AllFour(k, pixels.value, rows * width);
      assert pixels.value[..Size(rows * width, 4)] == pixels.value;
      return Ok(Image(width, rows, pixels.value));
    }
    SizeIsProduct(rows * width, 4);
    var buffer := new byte[rows * width * 4];
    var rgba := Expand(k, channels, pixels.value, rows * width, buffer);
    return if rgba.Ok? then Ok(Image(width, rows, rgba.value)) else Err(rgba.error);
  }

  /** RGBA needs no expansion. */
  lemma {:induction false} AllFour(k: Colours, pixels: seq<byte>, n: nat)
    requires k.colour == 6 && Size(n, 4) <= |pixels|
    ensures Expanded(k, 4, pixels, n) == Ok(pixels[..Size(n, 4)])
  {
    if n > 0 {
      AllFour(k, pixels, n - 1);
      NextPrefix(pixels, Size(n - 1, 4), 4);
    }
  }

  // ----- the row limit ------------------------------------------------------------------

  lemma {:induction false} FrontDecides(k: Colours, channels: nat, pixels: seq<byte>, front: seq<byte>, n: nat)
    requires Channels(k.colour) == Some(channels) && front <= pixels && Size(n, channels) <= |front|
    ensures Expanded(k, channels, front, n) == Expanded(k, channels, pixels, n)
  {
    if n > 0 {
      FrontDecides(k, channels, pixels, front, n - 1);
      assert front[Size(n - 1, channels)..Size(n, channels)] == pixels[Size(n - 1, channels)..Size(n, channels)];
    }
  }

  /** Fewer pixels are the front of the pixels. */
  lemma {:induction false} FewerPixels(k: Colours, channels: nat, pixels: seq<byte>, n: nat, m: nat)
    requires Channels(k.colour) == Some(channels) && m <= n && Size(n, channels) <= |pixels|
    requires Expanded(k, channels, pixels, n).Ok?
    ensures Size(m, channels) <= |pixels| && Size(m, 4) <= Size(n, 4)
    ensures Expanded(k, channels, pixels, m) == Ok(Expanded(k, channels, pixels, n).value[..Size(m, 4)])
    decreases n
  {
    var all := Expanded(k, channels, pixels, n).value;
    if m < n {
      FewerPixels(k, channels, pixels, n - 1, m);
      var above := Expanded(k, channels, pixels, n - 1).value;
      TakeOfAppended(above, all[|above|..], Size(m, 4));
    } else {
      assert all[..|all|] == all;
    }
  }

  lemma {:induction false} TakeOfAppended(above: seq<byte>, px: seq<byte>, n: nat)
    requires n <= |above|
    ensures (above + px)[..n] == above[..n]
  {
  }

  lemma {:induction false} FewerPixelsFit(width: nat, rows: nat, fewer: nat, channels: nat)
    requires fewer <= rows
    ensures 0 <= fewer * width <= rows * width
    ensures Size(fewer, width * channels) == Size(fewer * width, channels)
  {
    assert (rows - fewer) * width >= 0;
    PixelCount(width, fewer, channels);
    SizeIsProduct(fewer, width * channels);
  }

  /** Rendering fewer rows gives the top of the image. */
  lemma {:induction false} FewerRowsRendered(width: nat, rows: nat, fewer: nat, k: Colours, raw: seq<byte>)
    requires Channels(k.colour).Some? && fewer <= rows && Pixels(width, rows, k, raw).Ok?
    ensures fewer * width >= 0 && Size(fewer * width, 4) <= |Pixels(width, rows, k, raw).value.rgba|
    ensures Pixels(width, fewer, k, raw)
         == Ok(Image(width, fewer, Pixels(width, rows, k, raw).value.rgba[..Size(fewer * width, 4)]))
  {
    var channels := Channels(k.colour).value;
    var stride := width * channels;
    SizeIsProduct(rows, stride + 1);
    SizeIsProduct(fewer, stride + 1);
    SizeGrows(fewer, rows, stride + 1);
    UndoRedo(channels);
    FewerRows(Undo(channels), Redo(channels), raw, stride, rows, fewer);
    FewerPixelsFit(width, rows, fewer, channels);
    var pixels := Unfiltered(raw, width, rows, channels).value;
    PixelCount(width, rows, channels);
    FewerPixels(k, channels, pixels, rows * width, fewer * width);
    FrontDecides(k, channels, pixels, pixels[..Size(fewer, stride)], fewer * width);
  }

  /** Whenever the whole image decodes, decoding with a row limit decodes too, to exactly
      its top rows. */
  lemma {:induction false} LimitGivesTopRows(data: seq<byte>, limit: int, inflate: Inflate)
    requires limit > 0 && Decoded(data, None, inflate).Ok?
    ensures var full := Decoded(data, None, inflate).value;
            var rows := if limit < full.height then limit else full.height;
            rows * full.width >= 0 && Size(rows * full.width, 4) <= |full.rgba|
            && Decoded(data, Some(limit), inflate)
               == Ok(Image(full.width, rows, full.rgba[..Size(rows * full.width, 4)]))
  {
    var c := Walk(data, |SIGNATURE|, NOTHING).value;
    var h := c.header.value;
    var raw := inflate(c.idat).value;
    FewerRowsRendered(h.width, h.height, Rows(h.height, Some(limit)), ColoursOf(c, h.colour), raw);
  }

  // ----- files as chunks ----------------------------------------------------------------

  datatype Chunk = Chunk(kind: seq<byte>, body: seq<byte>, crc: seq<byte>)

  predicate Good(c: Chunk) {
    |c.kind| == 4 && |c.crc| == 4 && |c.body| < Pow256(4)
  }

  predicate AllGood(chunks: seq<Chunk>) {
    forall i :: 0 <= i < |chunks| ==> Good(chunks[i])
  }

  function Serial(c: Chunk): seq<byte> {
    FixedBytes(|c.body|, 4) + c.kind + c.body + c.crc
  }

  function SerialAll(chunks: seq<Chunk>): seq<byte> {
    if chunks == [] then [] else Serial(chunks[0]) + SerialAll(chunks[1..])
  }

  function File(chunks: seq<Chunk>): seq<byte> {
    SIGNATURE + SerialAll(chunks)
  }

  /** What a list of chunks adds up to, up to its IEND. */
  function Gather(c: Chunks, chunks: seq<Chunk>): Result<Chunks>
    decreases |chunks|
  {
    if chunks == [] || chunks[0].kind == IEND then Ok(c)
    else
      match Apply(c, chunks[0].kind, chunks[0].body)
      case Err(e) => Err(e)
      case Ok(next) => Gather(next, chunks[1..])
  }

  /** The chunk's bytes stand at a place in the data. */
  ghost predicate StandsAt(data: seq<byte>, pos: nat, c: Chunk) {
    var n := |c.body|;
    |data| >= pos + 12 + n && FromBytes(data[pos..pos + 4]) == n && data[pos + 4..pos + 8] == c.kind
    && data[pos + 8..pos + 8 + n] == c.body
  }

  lemma {:induction false} SerialStands(before: seq<byte>, c: Chunk, rest: seq<byte>)
    requires Good(c)
    ensures |Serial(c)| == 12 + |c.body| && StandsAt(before + (Serial(c) + rest), |before|, c)
  {
    var data, pos, n, s := before + (Serial(c) + rest), |before|, |c.body|, Serial(c);
    assert data[pos..pos + 12 + n] == s;
    assert data[pos..pos + 4] == s[0..4] && data[pos + 4..pos + 8] == s[4..8] && data[pos + 8..pos + 8 + n] == s[8..8 + n];
    assert s[0..4] == FixedBytes(n, 4);
    FixedReadsBack(n, 4);
  }

  /** One chunk of the walk. */
  lemma {:induction false} WalkStep(data: seq<byte>, pos: nat, first: Chunk, c: Chunks)
    requires StandsAt(data, pos, first)
    ensures Walk(data, pos, c)
         == if first.kind == IEND then Ok(c)
            else match Apply(c, first.kind, first.body)
                 case Err(e) => Err(e)
                 case Ok(next) => Walk(data, pos + 12 + |first.body|, next)
  {
  }

  lemma {:induction false} Regroup(before: seq<byte>, s: seq<byte>, rest: seq<byte>)
    ensures before + (s + rest) == (before + s) + rest && |before + s| == |before| + |s|
  {
  }

  lemma {:induction false} WalkFirst(before: seq<byte>, first: Chunk, s: seq<byte>, rest: seq<byte>, chunks: seq<Chunk>, c: Chunks)
    requires |s| == 12 + |first.body| && StandsAt(before + (s + rest), |before|, first)
    requires first.kind != IEND && Apply(c, first.kind, first.body).Ok? ==>
               var next := Apply(c, first.kind, first.body).value;
               Walk(before + s + rest, |before + s|, next) == Gather(next, chunks)
    ensures Walk(before + (s + rest), |before|, c) == Gather(c, [first] + chunks)
  {
    WalkStep(before + (s + rest), |before|, first, c);
    Regroup(before, s, rest);
    assert ([first] + chunks)[1..] == chunks;
  }

  lemma {:induction false} SerialFirst(chunks: seq<Chunk>)
    requires chunks != []
    ensures SerialAll(chunks) == Serial(chunks[0]) + SerialAll(chunks[1..]) && chunks == [chunks[0]] + chunks[1..]
  {
  }

  /** The walk reads back exactly the chunks that were written. */
  lemma {:induction false} WalkGathers(before: seq<byte>, chunks: seq<Chunk>, c: Chunks)
    requires AllGood(chunks)
    ensures Walk(before + SerialAll(chunks), |before|, c) == Gather(c, chunks)
    decreases |chunks|
  {
    if chunks == [] {
    } else {
      var next := Apply(c, chunks[0].kind, chunks[0].body);
      if next.Ok? {
        WalkGathers(before + Serial(chunks[0]), chunks[1..], next.value);
      }
      SerialFirst(chunks);
      SerialStands(before, chunks[0], SerialAll(chunks[1..]));
      WalkFirst(before, chunks[0], Serial(chunks[0]), SerialAll(chunks[1..]), chunks[1..], c);
    }
  }

  lemma {:induction false} FileDecodes(chunks: seq<Chunk>, maxRows: Option<int>, inflate: Inflate)
    requires AllGood(chunks)
    ensures Decoded(File(chunks), maxRows, inflate)
         == match Gather(NOTHING, chunks) { case Err(e) => Err(e) case Ok(c) => Render(c, maxRows, inflate) }
  {
    WalkGathers(SIGNATURE, chunks, NOTHING);
    assert File(chunks)[..|SIGNATURE|] == SIGNATURE;
  }

  predicate AllIdat(pieces: seq<Chunk>) {
    forall i :: 0 <= i < |pieces| ==> pieces[i].kind == IDAT
  }

  function Joined(pieces: seq<Chunk>): seq<byte> {
    if pieces == [] then [] else pieces[0].body + Joined(pieces[1..])
  }

  lemma {:induction false} PiecesJoin(c: Chunks, pieces: seq<Chunk>, after: seq<Chunk>)
    requires AllIdat(pieces)
    ensures Gather(c, pieces + after) == Gather(c.(idat := c.idat + Joined(pieces)), after)
    decreases |pieces|
  {
    if pieces == [] {
      assert pieces + after == after && c.idat + [] == c.idat;
    } else {
      assert (pieces + after)[1..] == pieces[1..] + after;
      PiecesJoin(c.(idat := c.idat + pieces[0].body), pieces[1..], after);
      assert c.idat + pieces[0].body + Joined(pieces[1..]) == c.idat + Joined(pieces);
    }
  }

  lemma {:induction false} SameAfterPieces(c: Chunks, before: seq<Chunk>, pieces1: seq<Chunk>, pieces2: seq<Chunk>, after: seq<Chunk>)
    requires AllIdat(pieces1) && AllIdat(pieces2) && Joined(pieces1) == Joined(pieces2)
    ensures Gather(c, before + (pieces1 + after)) == Gather(c, before + (pieces2 + after))
    decreases |before|
  {
    if before == [] {
      assert before + (pieces1 + after) == pieces1 + after && before + (pieces2 + after) == pieces2 + after;
      PiecesJoin(c, pieces1, after);
      PiecesJoin(c, pieces2, after);
    } else {
      assert (before + (pieces1 + after))[1..] == before[1..] + (pieces1 + after);
      assert (before + (pieces2 + after))[1..] == before[1..] + (pieces2 + after);
      var next := Apply(c, before[0].kind, before[0].body);
      if before[0].kind != IEND && next.Ok? {
        SameAfterPieces(next.value, before[1..], pieces1, pieces2, after);
      }
    }
  }

  /** However the compressed stream is cut into IDAT chunks, wherever they stand and whatever
      their checksums, the file decodes alike. */
  lemma {:induction false} CutsDoNotMatter(before: seq<Chunk>, pieces1: seq<Chunk>, pieces2: seq<Chunk>, after: seq<Chunk>,
                                           maxRows: Option<int>, inflate: Inflate)
    requires AllGood(before + (pieces1 + after)) && AllGood(before + (pieces2 + after))
    requires AllIdat(pieces1) && AllIdat(pieces2) && Joined(pieces1) == Joined(pieces2)
    ensures Decoded(File(before + (pieces1 + after)), maxRows, inflate)
         == Decoded(File(before + (pieces2 + after)), maxRows, inflate)
  {
    FileDecodes(before + (pieces1 + after), maxRows, inflate);
    FileDecodes(before + (pieces2 + after), maxRows, inflate);
    SameAfterPieces(NOTHING, before, pieces1, pieces2, after);
  }

  // ----- encode, then decode ------------------------------------------------------------

  function HeaderChunk(width: nat, height: nat, colour: byte, crc: seq<byte>): Chunk {
    Chunk(IHDR, FixedBytes(width, 4) + FixedBytes(height, 4) + [8, colour, 0, 0, 0], crc)
  }

  lemma {:induction false} HeaderReadsBack(width: nat, height: nat, colour: byte, crc: seq<byte>)
    requires width < Pow256(4) && height < Pow256(4) && |crc| == 4
    ensures Good(HeaderChunk(width, height, colour, crc))
    ensures var h := HeaderChunk(width, height, colour, crc);
            Apply(NOTHING, h.kind, h.body) == Ok(NOTHING.(header := Some(Header(width, height, 8, colour, 0))))
  {
    var b := HeaderChunk(width, height, colour, crc).body;
    FixedReadsBack(width, 4);
    FixedReadsBack(height, 4);
    assert b[0..4] == FixedBytes(width, 4) && b[4..8] == FixedBytes(height, 4);
    assert Pow256(4) == 0x1_0000_0000;
  }

  /** Palette, transparency and anything else that may stand between header and data. */
  predicate AllTables(tables: seq<Chunk>) {
    forall i :: 0 <= i < |tables| ==> tables[i].kind !in {IHDR, IDAT, IEND}
  }

  function WithTable(c: Chunks, table: Chunk): Chunks {
    if table.kind == PLTE then c.(palette := Some(table.body))
    else if table.kind == TRNS then c.(transparency := Some(table.body))
    else c
  }

  function WithTables(c: Chunks, tables: seq<Chunk>): (r: Chunks)
    ensures r.header == c.header && r.idat == c.idat
    decreases |tables|
  {
    if tables == [] then c else WithTables(WithTable(c, tables[0]), tables[1..])
  }

  lemma {:induction false} TablesGather(c: Chunks, tables: seq<Chunk>, rest: seq<Chunk>)
    requires AllTables(tables)
    ensures Gather(c, tables + rest) == Gather(WithTables(c, tables), rest)
    decreases |tables|
  {
    if tables == [] {
      assert tables + rest == rest;
    } else {
      assert (tables + rest)[1..] == tables[1..] + rest;
      TablesGather(WithTable(c, tables[0]), tables[1..], rest);
    }
  }

  /** The chunks of a file up to its data. */
  lemma {:induction false} EncodedGathers(width: nat, height: nat, colour: byte, crc: seq<byte>, tables: seq<Chunk>,
                                          pieces: seq<Chunk>, after: seq<Chunk>)
    requires width < Pow256(4) && height < Pow256(4) && |crc| == 4
    requires AllTables(tables) && AllIdat(pieces) && (after == [] || after[0].kind == IEND)
    ensures var c := WithTables(NOTHING.(header := Some(Header(width, height, 8, colour, 0))), tables);
            Gather(NOTHING, [HeaderChunk(width, height, colour, crc)] + (tables + (pieces + after))) == Ok(c.(idat := Joined(pieces)))
  {
    var chunks := [HeaderChunk(width, height, colour, crc)] + (tables + (pieces + after));
    HeaderReadsBack(width, height, colour, crc);
    assert chunks[1..] == tables + (pieces + after);
    var c := NOTHING.(header := Some(Header(width, height, 8, colour, 0)));
    TablesGather(c, tables, pieces + after);
    PiecesJoin(WithTables(c, tables), pieces, after);
    assert [] + Joined(pieces) == Joined(pieces);
  }

  /** Data whose rows are, byte by byte, filters of rows of samples, of any colour type, compressed,
      cut into IDAT chunks anywhere and closed, decodes to an image exactly when the samples are
      what its pixels are written as under the file's palette and transparency. */
  lemma {:induction false} DecodeUndoesEncode(width: nat, height: nat, colour: byte, channels: nat, raw: seq<byte>,
                                              samples: seq<byte>, rgba: seq<byte>, tables: seq<Chunk>, pieces: seq<Chunk>,
                                              after: seq<Chunk>, crc: seq<byte>, inflate: Inflate)
    requires 0 < width < Pow256(4) && 0 < height < Pow256(4) && |crc| == 4 && Channels(colour) == Some(channels)
    requires |raw| >= height * (width * channels + 1) && |samples| == height * (width * channels)
    requires Scanlines(raw, samples, channels, width * channels, height)
    requires height * width >= 0 && |rgba| == Size(height * width, 4)
    requires AllTables(tables) && AllIdat(pieces) && AllGood(tables + (pieces + after)) && (after == [] || after[0].kind == IEND)
    requires inflate(Joined(pieces)) == Some(raw)
    ensures Decoded(File([HeaderChunk(width, height, colour, crc)] + (tables + (pieces + after))), None, inflate)
              == Ok(Image(width, height, rgba))
       <==> Written(ColoursOf(WithTables(NOTHING, tables), colour), channels, samples, rgba, height * width)
  {
    var chunks := [HeaderChunk(width, height, colour, crc)] + (tables + (pieces + after));
    HeaderReadsBack(width, height, colour, crc);
    EncodedGathers(width, height, colour, crc, tables, pieces, after);
    FileDecodes(chunks, None, inflate);
    var c := NOTHING.(header := Some(Header(width, height, 8, colour, 0)));
    TablesIgnoreHeader(NOTHING, c, tables);
    var k := ColoursOf(WithTables(NOTHING, tables), colour);
    PaintsExactly(width, height, channels, raw, samples, rgba, k);
    if colour == 3 && WithTables(c, tables).palette.None? {
      NoPaletteWritesNothing(width, height, channels, samples, rgba, k);
    }
  }

  lemma {:induction false} TablesIgnoreHeader(b: Chunks, c: Chunks, tables: seq<Chunk>)
    requires b.palette == c.palette && b.transparency == c.transparency
    ensures WithTables(b, tables).palette == WithTables(c, tables).palette
    ensures WithTables(b, tables).transparency == WithTables(c, tables).transparency
    decreases |tables|
  {
    if tables != [] {
      TablesIgnoreHeader(WithTable(b, tables[0]), WithTable(c, tables[0]), tables[1..]);
    }
  }

  lemma {:induction false} NoPaletteWritesNothing(width: nat, height: nat, channels: nat, samples: seq<byte>, rgba: seq<byte>, k: Colours)
    requires width > 0 && height > 0 && Channels(k.colour) == Some(channels) && k.colour == 3 && k.palette == []
    ensures height * width > 0 && !Written(k, channels, samples, rgba, height * width)
  {
    assert height * width > 0;
    assert !WrittenAt(k, channels, samples, rgba, 0);
  }

  lemma {:induction false} PaintsExactly(width: nat, height: nat, channels: nat, raw: seq<byte>, samples: seq<byte>,
                                         rgba: seq<byte>, k: Colours)
    requires Channels(k.colour) == Some(channels)
    requires |raw| >= height * (width * channels + 1) && |samples| == height * (width * channels)
    requires Scanlines(raw, samples, channels, width * channels, height)
    requires height * width >= 0 && |rgba| == Size(height * width, 4)
    ensures Pixels(width, height, k, raw) == Ok(Image(width, height, rgba))
       <==> Written(k, channels, samples, rgba, height * width)
  {
    UnfilteredExactly(raw, samples, width, height, channels);
    PixelCount(width, height, channels);
    ExpandsExactly(k, channels, samples, rgba, height * width);
    assert rgba[..|rgba|] == rgba;
  }

  // ----- what it refuses ----------------------------------------------------------------

  /** The file is one the decoder takes on: its header says 8-bit samples of a known colour type,
      not interlaced, with a palette if it needs one, of an image that is not empty. */
  predicate Takes(c: Chunks) {
    c.header.Some?
    && var h := c.header.value;
       h.width > 0 && h.height > 0 && h.depth == 8 && h.colour in {0, 2, 3, 4, 6} && h.interlace == 0
       && (h.colour == 3 ==> c.palette.Some?)
  }

  /** The rows decoded under a limit: all of them, unless the limit is positive and below. */
  predicate RowsAre(height: nat, maxRows: Option<int>, rows: nat) {
    rows <= height && (rows < height <==> maxRows.Some? && 0 < maxRows.value < height)
    && (rows < height ==> rows == maxRows.value)
  }

  /** The samples are what the data's rows undo to and what the image's pixels are written as. */
  ghost predicate Shows(c: Chunks, inflate: Inflate, img: Image, samples: seq<byte>)
    requires Takes(c)
  {
    var colour := c.header.value.colour;
    var channels := Channels(colour).value;
    inflate(c.idat).Some? && |inflate(c.idat).value| >= img.height * (img.width * channels + 1)
    && |samples| == img.height * (img.width * channels)
    && Scanlines(inflate(c.idat).value, samples, channels, img.width * channels, img.height)
    && img.height * img.width >= 0 && |img.rgba| == Size(img.height * img.width, 4)
    && Written(ColoursOf(c, colour), channels, samples, img.rgba, img.height * img.width)
  }

  lemma {:induction false} RenderShows(c: Chunks, maxRows: Option<int>, inflate: Inflate, img: Image) returns (samples: seq<byte>)
    requires Render(c, maxRows, inflate) == Ok(img)
    ensures Takes(c) && img.width == c.header.value.width && img.height == Rows(c.header.value.height, maxRows)
    ensures Shows(c, inflate, img, samples)
  {
    var h, raw := c.header.value, inflate(c.idat).value;
    var channels, rows := Channels(h.colour).value, Rows(h.height, maxRows);
    samples := Unfiltered(raw, h.width, rows, channels).value;
    UnfilteredExactly(raw, samples, h.width, rows, channels);
    PixelCount(h.width, rows, channels);
    PaintsExactly(h.width, rows, channels, raw, samples, img.rgba, ColoursOf(c, h.colour));
  }

  lemma {:induction false} ShownIsRendered(c: Chunks, maxRows: Option<int>, inflate: Inflate, img: Image, samples: seq<byte>)
    requires Takes(c) && img.width == c.header.value.width && img.height == Rows(c.header.value.height, maxRows)
    requires Shows(c, inflate, img, samples)
    ensures Render(c, maxRows, inflate) == Ok(img)
  {
    var channels := Channels(c.header.value.colour).value;
    PaintsExactly(img.width, img.height, channels, inflate(c.idat).value, samples, img.rgba, ColoursOf(c, c.header.value.colour));
  }

  /** An image comes out exactly of chunks taken on, whose data inflates to filtered rows of
      samples that are written as its pixels. */
  lemma {:induction false} RendersExactly(c: Chunks, maxRows: Option<int>, inflate: Inflate, img: Image)
    ensures Render(c, maxRows, inflate) == Ok(img)
       <==> Takes(c) && img.width == c.header.value.width && RowsAre(c.header.value.height, maxRows, img.height)
            && exists samples :: Shows(c, inflate, img, samples)
  {
    if Render(c, maxRows, inflate) == Ok(img) {
      var samples := RenderShows(c, maxRows, inflate, img);
    }
    if Takes(c) && img.width == c.header.value.width && RowsAre(c.header.value.height, maxRows, img.height) {
      if samples :| Shows(c, inflate, img, samples) {
        ShownIsRendered(c, maxRows, inflate, img, samples);
      }
    }
  }

  // ----- where the walk stops -----------------------------------------------------------

  /** A chunk whose body is cut short fails there; one without all of its checksum does not, and
      fewer than eight bytes at the end are passed over. */
  lemma {:induction false} CutShort(before: seq<byte>, n: nat, kind: seq<byte>, part: seq<byte>, c: Chunks)
    requires n < Pow256(4) && |kind| == 4
    ensures |part| < n ==>
              Walk(before + (FixedBytes(n, 4) + kind + part), |before|, c) == Err(TruncatedChunk(|before|))
    ensures n <= |part| < n + 4 && kind != IEND ==>
              Walk(before + (FixedBytes(n, 4) + kind + part), |before|, c) == Apply(c, kind, part[..n])
    ensures |part| < 8 ==> Walk(before + part, |before|, c) == Ok(c)
  {
    var head := FixedBytes(n, 4) + kind + part;
    var data := before + head;
    FixedReadsBack(n, 4);
    assert data[|before|..|before| + 4] == head[0..4] == FixedBytes(n, 4);
    assert data[|before| + 4..|before| + 8] == head[4..8] == kind;
    if n <= |part| {
      assert data[|before| + 8..|before| + 8 + n] == head[8..8 + n] == part[..n];
    }
  }

  /** Why nothing comes out. */
  lemma {:induction false} RefusalSays(c: Chunks, maxRows: Option<int>, inflate: Inflate)
    requires Render(c, maxRows, inflate).Err?
    ensures match Render(c, maxRows, inflate).error
            case NoHeader => c.header.None?
            case NoPixels => c.header.Some? && (c.header.value.width == 0 || c.header.value.height == 0)
            case Depth(d) => c.header.Some? && c.header.value.depth == d != 8
            case ColourType(k) => c.header.Some? && c.header.value.colour == k && k !in {0, 2, 3, 4, 6}
            case Interlaced => c.header.Some? && c.header.value.interlace != 0
            case NoPalette => c.header.Some? && c.header.value.colour == 3 && c.palette.None?
            case NotInflated => inflate(c.idat).None?
            case e => Takes(c) && inflate(c.idat).Some? && (e.TooShort? || e.UnknownFilter? || e.NoSuchEntry?)
  {
    if Takes(c) && inflate(c.idat).Some? {
      PixelsFailBy(c.header.value.width, Rows(c.header.value.height, maxRows), ColoursOf(c, c.header.value.colour), inflate(c.idat).value);
    }
  }

  lemma {:induction false} PixelsFailBy(width: nat, rows: nat, k: Colours, raw: seq<byte>)
    requires Channels(k.colour).Some? && Pixels(width, rows, k, raw).Err?
    ensures var e := Pixels(width, rows, k, raw).error; e.TooShort? || e.UnknownFilter? || e.NoSuchEntry?
  {
    var channels := Channels(k.colour).value;
    var u := Unfiltered(raw, width, rows, channels);
    if u.Err? {
      UnfilterFailsExactly(raw, width, rows, channels, u.error);
    } else {
      PixelCount(width, rows, channels);
      ExpandFailsBy(k, channels, u.value, rows * width);
    }
  }

  lemma {:induction false} ExpandFailsBy(k: Colours, channels: nat, pixels: seq<byte>, n: nat)
    requires Channels(k.colour) == Some(channels) && Size(n, channels) <= |pixels|
    ensures Expanded(k, channels, pixels, n).Err? ==> Expanded(k, channels, pixels, n).error.NoSuchEntry?
  {
    if n > 0 {
      ExpandFailsBy(k, channels, pixels, n - 1);
    }
  }

  /** The first pixel past the palette. */
  predicate PastPalette(k: Colours, samples: seq<byte>, n: nat, i: nat) {
    k.colour == 3 && i < n <= |samples| && 3 * (samples[i] as int) + 3 > |k.palette|
    && forall j: nat :: j < i ==> 3 * (samples[j] as int) + 3 <= |k.palette|
  }

  lemma {:induction false} OneEach(n: nat)
    ensures Size(n, 1) == n
  {
    SizeIsProduct(n, 1);
  }

  /** Expansion fails exactly at the first pixel whose entry the palette does not have. */
  lemma {:induction false} ExpandFailsExactly(k: Colours, samples: seq<byte>, n: nat, e: Error)
    requires k.colour == 3 && n <= |samples|
    ensures Size(n, 1) <= |samples|
    ensures Expanded(k, 1, samples, n) == Err(e)
       <==> e.NoSuchEntry? && PastPalette(k, samples, n, e.pixel) && e.index == samples[e.pixel] && e.entries == |k.palette| / 3
    ensures Expanded(k, 1, samples, n).Ok? <==> forall j: nat :: j < n ==> 3 * (samples[j] as int) + 3 <= |k.palette|
  {
    OneEach(n);
    if n > 0 {
      ExpandFailsExactly(k, samples, n - 1, e);
      OneEach(n - 1);
      assert samples[Size(n - 1, 1)..Size(n, 1)] == [samples[n - 1]];
    }
  }
}
