/** The five row filters of PNG (sections 9.2 to 9.4 of the W3C PNG specification) and
    their undoing, row by row, as `_unfilter` does it. */
module PngFilter {
  import opened Common

  datatype Error =
    | BadSignature | TruncatedChunk(at: nat) | BadHeader | NoHeader | NoPixels | Depth(depth: byte)
    | ColourType(colour: byte) | Interlaced | NoPalette | NotInflated
    | TooShort(given: nat, expected: nat) | UnknownFilter(row: nat, kind: byte)
    | NoSuchEntry(pixel: nat, index: byte, entries: nat)

  datatype Result<+T> = Ok(value: T) | Err(error: Error)

  // ----- one row ------------------------------------------------------------------------

  function Distance(a: int, b: int): nat {
    if a < b then b - a else a - b
  }

  /** d is nearest left + above - upper left; left wins a tie, then above. */
  predicate Nearest(left: byte, above: byte, upperLeft: byte, d: byte) {
    var p := left as int + above - upperLeft;
    var toLeft, toAbove, toUpper := Distance(p, left), Distance(p, above), Distance(p, upperLeft);
    if toLeft <= toAbove && toLeft <= toUpper then d == left
    else if toAbove < toLeft && toAbove <= toUpper then d == above
    else toUpper < toLeft && toUpper < toAbove && d == upperLeft
  }

  /** `_paeth`: whichever of left, above and upper left is nearest left + above - upper
      left, in that order of preference. */
  function Paeth(a: byte, b: byte, c: byte): (r: byte)
    ensures Nearest(a, b, c, r)
  {
    var p := a as int + b - c;
    if Distance(p, a) <= Distance(p, b) && Distance(p, a) <= Distance(p, c) then a
    else if Distance(p, b) <= Distance(p, c) then b
    else c
  }

  /** What a filter predicts a byte to be. */
  function Predict(kind: byte, left: byte, above: byte, upperLeft: byte): byte {
    match kind
    case 0 => 0
    case 1 => left
    case 2 => above
    case 3 => (left as int + above) / 2
    case _ => Paeth(left, above, upperLeft)
  }

  /** What section 9.2 says each type predicts: nothing, the byte to the left, the byte above, half
      their sum rounded down, or the nearest of the three neighbours. */
  predicate Predicts(kind: byte, left: byte, above: byte, upperLeft: byte, d: byte) {
    (kind == 0 && d == 0) || (kind == 1 && d == left) || (kind == 2 && d == above)
    || (kind == 3 && 0 <= left as int + above - 2 * d as int <= 1)
    || (kind == 4 && Nearest(left, above, upperLeft, d))
  }

  lemma {:induction false} PredictExactly(kind: byte, left: byte, above: byte, upperLeft: byte, d: byte)
    requires kind <= 4
    ensures Predict(kind, left, above, upperLeft) == d <==> Predicts(kind, left, above, upperLeft, d)
  {
  }

  /** A filter type, left, above and upper left to a prediction. That undoing inverts
      filtering needs nothing more of `Predict` than that it is one. */
  type Predictor = (byte, byte, byte, byte) -> byte

  /** The byte one pixel to the left, 0 before the first pixel. */
  function Left(row: seq<byte>, i: int, bpp: nat): byte {
    if 0 <= i - bpp < |row| then row[i - bpp] else 0
  }

  /** The byte above. */
  function Above(prev: seq<byte>, i: nat): byte {
    if i < |prev| then prev[i] else 0
  }

  /** `kind`'s filter taken off the first bytes of a row, given the row above. */
  function UnfilterRow(f: Predictor, kind: byte, bpp: nat, row: seq<byte>, prev: seq<byte>): (out: seq<byte>)
    requires bpp > 0
    ensures |out| == |row|
  {
    if row == [] then []
    else
      var i := |row| - 1;
      var done := UnfilterRow(f, kind, bpp, row[..i], prev);
      done + [(row[i] as int + f(kind, Left(done, i, bpp), Above(prev, i), Left(prev, i, bpp))) % 256]
  }

  /** The filter of the specification: each byte less its prediction, modulo 256. */
  function FilterRow(f: Predictor, kind: byte, bpp: nat, plain: seq<byte>, prev: seq<byte>): (row: seq<byte>)
    requires bpp > 0
    ensures |row| == |plain|
  {
    seq(|plain|, i requires 0 <= i < |plain| =>
      (plain[i] as int - f(kind, Left(plain, i, bpp), Above(prev, i), Left(prev, i, bpp))) % 256)
  }

  /** Undoing is the exact inverse of filtering, both ways round. */
  lemma {:induction false} RowInverse(f: Predictor, kind: byte, bpp: nat, row: seq<byte>, plain: seq<byte>, prev: seq<byte>)
    requires bpp > 0 && |row| == |plain|
    ensures plain == UnfilterRow(f, kind, bpp, row, prev) <==> row == FilterRow(f, kind, bpp, plain, prev)
  {
    if row != [] {
      var i := |row| - 1;
      RowInverse(f, kind, bpp, row[..i], plain[..i], prev);
      LastOfUnfilter(f, kind, bpp, row, plain, prev);
      LastOfFilter(f, kind, bpp, plain, prev);
      ByteInverse(row[i], plain[i], f(kind, Left(plain, i, bpp), Above(prev, i), Left(prev, i, bpp)));
      SameByEnds(row, FilterRow(f, kind, bpp, plain, prev));
    }
  }

  lemma {:induction false} LastOfUnfilter(f: Predictor, kind: byte, bpp: nat, row: seq<byte>, plain: seq<byte>, prev: seq<byte>)
    requires bpp > 0 && |row| == |plain| > 0
    ensures var i := |row| - 1;
            plain == UnfilterRow(f, kind, bpp, row, prev)
            <==> plain[..i] == UnfilterRow(f, kind, bpp, row[..i], prev)
                 && plain[i] == (row[i] as int + f(kind, Left(plain, i, bpp), Above(prev, i), Left(prev, i, bpp))) % 256
  {
    var i := |row| - 1;
    assert Left(plain, i, bpp) == Left(plain[..i], i, bpp);
    SameByEnds(plain, UnfilterRow(f, kind, bpp, row, prev));
  }

  lemma {:induction false} ByteInverse(x: byte, y: byte, q: byte)
    ensures y == (x as int + q) % 256 <==> x == (y as int - q) % 256
  {
  }

  lemma {:induction false} SameByEnds(s: seq<byte>, t: seq<byte>)
    requires |s| == |t| > 0
    ensures s == t <==> s[..|s| - 1] == t[..|t| - 1] && s[|s| - 1] == t[|t| - 1]
  {
    assert s == s[..|s| - 1] + [s[|s| - 1]];
    assert t == t[..|t| - 1] + [t[|t| - 1]];
  }

  lemma {:induction false} LastOfFilter(f: Predictor, kind: byte, bpp: nat, plain: seq<byte>, prev: seq<byte>)
    requires bpp > 0 && 0 < |plain|
    ensures var i := |plain| - 1;
            FilterRow(f, kind, bpp, plain, prev)[..i] == FilterRow(f, kind, bpp, plain[..i], prev)
            && FilterRow(f, kind, bpp, plain, prev)[i]
               == (plain[i] as int - f(kind, Left(plain, i, bpp), Above(prev, i), Left(prev, i, bpp))) % 256
  {
    var i := |plain| - 1;
    forall k | 0 <= k < i
      ensures FilterRow(f, kind, bpp, plain, prev)[k] == FilterRow(f, kind, bpp, plain[..i], prev)[k]
    {
      assert Left(plain, k, bpp) == Left(plain[..i], k, bpp);
    }
  }

  /** Byte i of a filtered row and of what it undoes to differ, modulo 256, by what the type
      predicts from the bytes already there: to the left, above, and above to the left. */
  ghost predicate FilteredAt(kind: byte, bpp: nat, row: seq<byte>, plain: seq<byte>, prev: seq<byte>, i: nat)
    requires i < |row| == |plain| == |prev|
  {
    Predicts(kind, if i >= bpp then plain[i - bpp] else 0, prev[i], if i >= bpp then prev[i - bpp] else 0,
             (plain[i] as int - row[i]) % 256)
  }

  ghost predicate FilteredAs(kind: byte, bpp: nat, row: seq<byte>, plain: seq<byte>, prev: seq<byte>) {
    |row| == |plain| == |prev| && forall i: nat :: i < |row| ==> FilteredAt(kind, bpp, row, plain, prev, i)
  }

  lemma {:induction false} FilteredAtExactly(kind: byte, bpp: nat, row: seq<byte>, plain: seq<byte>, prev: seq<byte>, i: nat)
    requires bpp > 0 && kind <= 4 && i < |row| == |plain| == |prev|
    ensures row[i] == FilterRow(Predict, kind, bpp, plain, prev)[i] <==> FilteredAt(kind, bpp, row, plain, prev, i)
  {
    var left, above, upper := Left(plain, i, bpp), Above(prev, i), Left(prev, i, bpp);
    var d: byte := (plain[i] as int - row[i]) % 256;
    PredictExactly(kind, left, above, upper, d);
    DifferenceOf(plain[i], row[i], Predict(kind, left, above, upper));
  }

  lemma {:induction false} DifferenceOf(x: byte, y: byte, d: byte)
    ensures y == (x as int - d) % 256 <==> (x as int - y) % 256 == d
  {
  }

  /** What undoing a row leaves, byte by byte, for each of the five types; and nothing else does. */
  lemma {:induction false} UndoneRowExactly(kind: byte, bpp: nat, row: seq<byte>, plain: seq<byte>, prev: seq<byte>)
    requires bpp > 0 && kind <= 4 && |row| == |plain| == |prev|
    ensures plain == UnfilterRow(Predict, kind, bpp, row, prev) <==> FilteredAs(kind, bpp, row, plain, prev)
  {
    RowInverse(Predict, kind, bpp, row, plain, prev);
    forall i: nat | i < |row|
      ensures row[i] == FilterRow(Predict, kind, bpp, plain, prev)[i] <==> FilteredAt(kind, bpp, row, plain, prev, i)
    {
      FilteredAtExactly(kind, bpp, row, plain, prev, i);
    }
  }

  /** The bytes `_unfilter` leaves alone at the start of a Sub row have nothing to their left. */
  lemma {:induction false} SubStartsLate(bpp: nat, row: seq<byte>, prev: seq<byte>, i: nat)
    requires bpp > 0 && i < |row| && i < bpp
    ensures UnfilterRow(Predict, 1, bpp, row, prev)[i] == row[i]
  {
    if i < |row| - 1 {
      SubStartsLate(bpp, row[..|row| - 1], prev, i);
    }
  }

  /** One row, in place. */
  method UndoRow(kind: byte, bpp: nat, row: array<byte>, prev: array<byte>)
    requires bpp > 0 && row != prev && row.Length == prev.Length
    modifies row
    ensures row[..] == UnfilterRow(Predict, kind, bpp, old(row[..]), prev[..])
    ensures kind <= 4 ==> FilteredAs(kind, bpp, old(row[..]), row[..], prev[..])
  {
    ghost var was, above := row[..], prev[..];
    var n := row.Length;
    var i := 0;
    while i < n
      invariant 0 <= i <= n
      invariant prev[..] == above
      invariant row[..i] == UnfilterRow(Predict, kind, bpp, was[..i], above)
      invariant row[i..] == was[i..]
    {
      ghost var done := row[..i];
      var left := if i >= bpp then row[i - bpp] else 0;
      var upperLeft := if i >= bpp then prev[i - bpp] else 0;
      assert left == Left(done, i, bpp) && upperLeft == Left(above, i, bpp) && prev[i] == above[i];
      assert row[i] == was[i] by {
        assert row[i..][0] == was[i..][0];
      }
      row[i] := (row[i] as int + Predict(kind, left, prev[i], upperLeft)) % 256;
      assert row[..i] == done;
      assert was[..i + 1][..i] == was[..i];
      assert row[..i + 1] == done + [row[i]];
      assert row[i + 1..] == was[i + 1..] by {
        assert was[i + 1..] == was[i..][1..];
      }
      i := i + 1;
    }
    assert was[..n] == was && row[..n] == row[..];
    if kind <= 4 {
      UndoneRowExactly(kind, bpp, was, row[..], above);
    }
  }

  // ----- all the rows -------------------------------------------------------------------

  /** A row operation: filter type, row and the row above (undone) to a row. */
  type RowOp = (byte, seq<byte>, seq<byte>) -> seq<byte>

  function Undo(bpp: nat): RowOp
    requires bpp > 0
  {
    (kind, row, prev) => UnfilterRow(Predict, kind, bpp, row, prev)
  }

  function Redo(bpp: nat): RowOp
    requires bpp > 0
  {
    (kind, plain, prev) => FilterRow(Predict, kind, bpp, plain, prev)
  }

  ghost predicate KeepsLength(u: RowOp) {
    forall kind, row, prev {:trigger u(kind, row, prev)} :: |u(kind, row, prev)| == |row|
  }

  ghost predicate InverseAt(u: RowOp, v: RowOp, kind: byte, row: seq<byte>, plain: seq<byte>, prev: seq<byte>) {
    plain == u(kind, row, prev) <==> row == v(kind, plain, prev)
  }

  /** v is u's two-sided inverse. */
  ghost predicate Inverses(u: RowOp, v: RowOp) {
    KeepsLength(u) && KeepsLength(v)
    && forall kind, row, plain, prev {:trigger InverseAt(u, v, kind, row, plain, prev)} ::
         |row| == |plain| ==> InverseAt(u, v, kind, row, plain, prev)
  }

  ghost predicate UndoesAt(u: RowOp, bpp: nat, kind: byte, row: seq<byte>, prev: seq<byte>)
    requires bpp > 0
  {
    u(kind, row, prev) == UnfilterRow(Predict, kind, bpp, row, prev)
  }

  /** u undoes a row as the in-place loop does. */
  ghost predicate Undoes(u: RowOp, bpp: nat)
    requires bpp > 0
  {
    forall kind, row, prev {:trigger UndoesAt(u, bpp, kind, row, prev)} :: UndoesAt(u, bpp, kind, row, prev)
  }

  lemma {:induction false} UndoRedo(bpp: nat)
    requires bpp > 0
    ensures Inverses(Undo(bpp), Redo(bpp)) && Undoes(Undo(bpp), bpp)
  {
    forall kind, row: seq<byte>, plain: seq<byte>, prev | |row| == |plain|
      ensures InverseAt(Undo(bpp), Redo(bpp), kind, row, plain, prev)
    {
      RowInverse(Predict, kind, bpp, row, plain, prev);
    }
  }

  /** The bytes `rows` rows of `each` bytes take. */
  function Size(rows: nat, each: nat): nat {
    if rows == 0 then 0 else each + Size(rows - 1, each)
  }

  lemma {:induction false} SizeIsProduct(rows: nat, each: nat)
    ensures Size(rows, each) == rows * each
  {
    if rows > 0 {
      SizeIsProduct(rows - 1, each);
    }
  }

  lemma {:induction false} SizeGrows(fewer: nat, rows: nat, each: nat)
    requires fewer <= rows
    ensures Size(fewer, each) <= Size(rows, each)
  {
    if rows > fewer {
      SizeGrows(fewer, rows - 1, each);
    }
  }

  /** The row above the next one: the last of those done, zeros above the first. */
  function LastRow(done: seq<byte>, stride: nat): (row: seq<byte>)
    ensures |row| == stride
  {
    if |done| < stride then Zeros(stride) else done[|done| - stride..]
  }

  /** The top rows of the data undone, or the first row's error. */
  function UnfilterTop(u: RowOp, raw: seq<byte>, stride: nat, rows: nat): (r: Result<seq<byte>>)
    requires KeepsLength(u) && |raw| >= Size(rows, stride + 1)
    ensures r.Ok? ==> |r.value| == Size(rows, stride)
  {
    if rows == 0 then Ok([])
    else
      var above := UnfilterTop(u, raw, stride, rows - 1);
      if above.Err? then above else NextUndone(u, raw, stride, rows - 1, above.value)
  }

  function NextUndone(u: RowOp, raw: seq<byte>, stride: nat, y: nat, done: seq<byte>): Result<seq<byte>>
    requires |raw| >= Size(y + 1, stride + 1)
  {
    var pos := Size(y, stride + 1);
    if raw[pos] > 4 then Err(UnknownFilter(y, raw[pos]))
    else Ok(done + u(raw[pos], raw[pos + 1..pos + 1 + stride], LastRow(done, stride)))
  }

  /** `_unfilter`. */
  function Unfiltered(raw: seq<byte>, width: nat, rows: nat, bpp: nat): (r: Result<seq<byte>>)
    requires bpp > 0
    ensures r.Ok? ==> |r.value| == rows * (width * bpp)
  {
    var stride: nat := width * bpp;
    SizeIsProduct(rows, stride);
    SizeIsProduct(rows, stride + 1);
    if |raw| < rows * (stride + 1) then Err(TooShort(|raw|, rows * (stride + 1)))
    else UnfilterTop(Undo(bpp), raw, stride, rows)
  }

  // ----- what filtered data is ----------------------------------------------------------

  /** Row y of an image, and the row above it. */
  function RowOf(plain: seq<byte>, stride: nat, y: nat): (row: seq<byte>)
    requires |plain| >= Size(y + 1, stride)
    ensures |row| == stride
  {
    plain[Size(y, stride)..Size(y, stride) + stride]
  }

  function RowAbove(plain: seq<byte>, stride: nat, y: nat): (row: seq<byte>)
    requires |plain| >= Size(y + 1, stride)
    ensures |row| == stride
  {
    if y == 0 then Zeros(stride) else RowOf(plain, stride, y - 1)
  }

  /** Row y of the data names one of the five types and is that filter of row y of the image. */
  ghost predicate EncodesRow(v: RowOp, raw: seq<byte>, plain: seq<byte>, stride: nat, y: nat) {
    var pos := Size(y, stride + 1);
    |raw| >= Size(y + 1, stride + 1) && |plain| >= Size(y + 1, stride) && raw[pos] <= 4
    && raw[pos + 1..pos + 1 + stride] == v(raw[pos], RowOf(plain, stride, y), RowAbove(plain, stride, y))
  }

  ghost predicate EncodesTop(v: RowOp, raw: seq<byte>, plain: seq<byte>, stride: nat, rows: nat) {
    |raw| >= Size(rows, stride + 1) && |plain| >= Size(rows, stride)
    && forall y :: 0 <= y < rows ==> EncodesRow(v, raw, plain, stride, y)
  }

  /** The encoder: the top rows filtered, each with the type chosen for it in front. */
  function FilterTop(v: RowOp, kinds: seq<byte>, plain: seq<byte>, stride: nat, rows: nat): (raw: seq<byte>)
    requires KeepsLength(v) && rows <= |kinds| && |plain| >= Size(rows, stride)
    ensures |raw| == Size(rows, stride + 1)
  {
    if rows == 0 then []
    else
      var y := rows - 1;
      FilterTop(v, kinds, plain, stride, y)
      + [kinds[y]] + v(kinds[y], RowOf(plain, stride, y), RowAbove(plain, stride, y))
  }

  predicate Filters(kinds: seq<byte>) {
    forall k :: 0 <= k < |kinds| ==> kinds[k] <= 4
  }

  // ----- the inverse theorems -----------------------------------------------------------

  lemma {:induction false} LastIsAbove(plain: seq<byte>, stride: nat, y: nat)
    requires |plain| >= Size(y + 1, stride)
    ensures LastRow(plain[..Size(y, stride)], stride) == RowAbove(plain, stride, y)
  {
    if y > 0 {
      var n := Size(y - 1, stride);
      assert plain[..n + stride][n..] == plain[n..n + stride];
    } else if stride == 0 {
      assert LastRow(plain[..0], 0) == Zeros(0);
    }
  }

  lemma {:induction false} NextPrefix(plain: seq<byte>, n: nat, m: nat)
    requires n + m <= |plain|
    ensures plain[..n + m] == plain[..n] + plain[n..n + m]
  {
  }

  lemma {:induction false} PrefixEnds(done: seq<byte>, row: seq<byte>, plain: seq<byte>)
    requires done + row <= plain
    ensures done == plain[..|done|] && row == plain[|done|..|done| + |row|]
  {
    assert (done + row)[..|done|] == done && (done + row)[|done|..] == row;
  }

  /** Data that encodes the top of an image undoes to it. */
  lemma {:induction false} EncodedIsUndone(u: RowOp, v: RowOp, raw: seq<byte>, plain: seq<byte>, stride: nat, rows: nat)
    requires Inverses(u, v) && EncodesTop(v, raw, plain, stride, rows)
    ensures UnfilterTop(u, raw, stride, rows) == Ok(plain[..Size(rows, stride)])
  {
    if rows > 0 {
      var y := rows - 1;
      EncodedIsUndone(u, v, raw, plain, stride, y);
      assert EncodesRow(v, raw, plain, stride, y);
      NextUndoneIs(u, v, raw, plain, stride, y, plain[..Size(y, stride)]);
    }
  }

  lemma {:induction false} Uninvert(u: RowOp, v: RowOp, kind: byte, filtered: seq<byte>, row: seq<byte>, above: seq<byte>)
    requires Inverses(u, v) && filtered == v(kind, row, above)
    ensures u(kind, filtered, above) == row
  {
    assert InverseAt(u, v, kind, filtered, row, above);
  }

  lemma {:induction false} RowUndone(u: RowOp, v: RowOp, raw: seq<byte>, plain: seq<byte>, stride: nat, y: nat, done: seq<byte>)
    requires Inverses(u, v) && EncodesRow(v, raw, plain, stride, y) && done == plain[..Size(y, stride)]
    ensures var pos := Size(y, stride + 1);
            raw[pos] <= 4 && u(raw[pos], raw[pos + 1..pos + 1 + stride], LastRow(done, stride)) == RowOf(plain, stride, y)
  {
    var pos := Size(y, stride + 1);
    LastIsAbove(plain, stride, y);
    Uninvert(u, v, raw[pos], raw[pos + 1..pos + 1 + stride], RowOf(plain, stride, y), RowAbove(plain, stride, y));
  }

  lemma {:induction false} NextUndoneIs(u: RowOp, v: RowOp, raw: seq<byte>, plain: seq<byte>, stride: nat, y: nat, done: seq<byte>)
    requires Inverses(u, v) && EncodesRow(v, raw, plain, stride, y) && done == plain[..Size(y, stride)]
    ensures NextUndone(u, raw, stride, y, done) == Ok(plain[..Size(y + 1, stride)])
  {
    RowUndone(u, v, raw, plain, stride, y, done);
    NextPrefix(plain, Size(y, stride), stride);
  }

  /** Data that undoes encodes what it undid to. */
  lemma {:induction false} UndoneIsEncoded(u: RowOp, v: RowOp, raw: seq<byte>, plain: seq<byte>, stride: nat, rows: nat)
    requires Inverses(u, v) && |raw| >= Size(rows, stride + 1)
    requires UnfilterTop(u, raw, stride, rows).Ok? && UnfilterTop(u, raw, stride, rows).value <= plain
    ensures EncodesTop(v, raw, plain, stride, rows)
  {
    if rows > 0 {
      var y := rows - 1;
      UndoneStep(u, v, raw, plain, stride, y, UnfilterTop(u, raw, stride, y).value);
      UndoneIsEncoded(u, v, raw, plain, stride, y);
    }
  }

  lemma {:induction false} UndoneStep(u: RowOp, v: RowOp, raw: seq<byte>, plain: seq<byte>, stride: nat, y: nat, done: seq<byte>)
    requires Inverses(u, v) && |raw| >= Size(y + 1, stride + 1) && |done| == Size(y, stride)
    requires var next := NextUndone(u, raw, stride, y, done);
             next.Ok? && next.value <= plain
    ensures done <= plain && EncodesRow(v, raw, plain, stride, y)
  {
    var pos := Size(y, stride + 1);
    var above := LastRow(done, stride);
    PrefixEnds(done, u(raw[pos], raw[pos + 1..pos + 1 + stride], above), plain);
    LastIsAbove(plain, stride, y);
    RowIsEncoded(u, v, raw, plain, stride, y, above);
  }

  lemma {:induction false} Reinvert(u: RowOp, v: RowOp, kind: byte, filtered: seq<byte>, row: seq<byte>, above: seq<byte>)
    requires Inverses(u, v) && row == u(kind, filtered, above)
    ensures filtered == v(kind, row, above)
  {
    assert InverseAt(u, v, kind, filtered, row, above);
  }

  lemma {:induction false} RowIsEncoded(u: RowOp, v: RowOp, raw: seq<byte>, plain: seq<byte>, stride: nat, y: nat, above: seq<byte>)
    requires Inverses(u, v) && |raw| >= Size(y + 1, stride + 1) && |plain| >= Size(y + 1, stride)
    requires above == RowAbove(plain, stride, y)
    requires var pos := Size(y, stride + 1);
             raw[pos] <= 4 && RowOf(plain, stride, y) == u(raw[pos], raw[pos + 1..pos + 1 + stride], above)
    ensures EncodesRow(v, raw, plain, stride, y)
  {
    var pos := Size(y, stride + 1);
    Reinvert(u, v, raw[pos], raw[pos + 1..pos + 1 + stride], RowOf(plain, stride, y), above);
  }

  /** Undoing gives an image exactly when the data's rows are that image's rows, each
      filtered as its type byte says: the two-sided inverse. */
  lemma {:induction false} UndoneExactly(raw: seq<byte>, plain: seq<byte>, bpp: nat, stride: nat, rows: nat)
    requires bpp > 0 && |raw| >= Size(rows, stride + 1)
    ensures UnfilterTop(Undo(bpp), raw, stride, rows) == Ok(plain)
       <==> |plain| == Size(rows, stride) && EncodesTop(Redo(bpp), raw, plain, stride, rows)
  {
    UndoRedo(bpp);
    if UnfilterTop(Undo(bpp), raw, stride, rows) == Ok(plain) {
      UndoneIsEncoded(Undo(bpp), Redo(bpp), raw, plain, stride, rows);
    }
    if |plain| == Size(rows, stride) && EncodesTop(Redo(bpp), raw, plain, stride, rows) {
      EncodedIsUndone(Undo(bpp), Redo(bpp), raw, plain, stride, rows);
      assert plain[..Size(rows, stride)] == plain;
    }
  }

  /** Row y of the data names one of the five types, and its bytes are that filter of row y. */
  ghost predicate Scanline(raw: seq<byte>, plain: seq<byte>, bpp: nat, stride: nat, y: nat) {
    |raw| >= Size(y + 1, stride + 1) && |plain| >= Size(y + 1, stride)
    && var pos := Size(y, stride + 1);
       raw[pos] <= 4
       && FilteredAs(raw[pos], bpp, raw[pos + 1..pos + 1 + stride], plain[Size(y, stride)..Size(y, stride) + stride],
                     if y == 0 then seq(stride, _ => 0) else plain[Size(y - 1, stride)..Size(y - 1, stride) + stride])
  }

  ghost predicate Scanlines(raw: seq<byte>, plain: seq<byte>, bpp: nat, stride: nat, rows: nat) {
    forall y: nat :: y < rows ==> Scanline(raw, plain, bpp, stride, y)
  }

  lemma {:induction false} ScanlineExactly(raw: seq<byte>, plain: seq<byte>, bpp: nat, stride: nat, y: nat)
    requires bpp > 0
    ensures Scanline(raw, plain, bpp, stride, y) <==> EncodesRow(Redo(bpp), raw, plain, stride, y)
  {
    if |raw| >= Size(y + 1, stride + 1) && |plain| >= Size(y + 1, stride) {
      var pos := Size(y, stride + 1);
      assert Zeros(stride) == seq(stride, _ => 0);
      if raw[pos] <= 4 {
        var row := raw[pos + 1..pos + 1 + stride];
        UndoneRowExactly(raw[pos], bpp, row, RowOf(plain, stride, y), RowAbove(plain, stride, y));
        RowInverse(Predict, raw[pos], bpp, row, RowOf(plain, stride, y), RowAbove(plain, stride, y));
      }
    }
  }

  /** `_unfilter` gives an image exactly when the data is long enough and each of its rows is, byte
      by byte, one of the five filters of that row of the image. */
  lemma {:induction false} UnfilteredExactly(raw: seq<byte>, plain: seq<byte>, width: nat, rows: nat, bpp: nat)
    requires bpp > 0
    ensures Unfiltered(raw, width, rows, bpp) == Ok(plain)
       <==> |raw| >= rows * (width * bpp + 1) && |plain| == rows * (width * bpp) && Scanlines(raw, plain, bpp, width * bpp, rows)
  {
    var stride: nat := width * bpp;
    SizeIsProduct(rows, stride);
    SizeIsProduct(rows, stride + 1);
    if |raw| >= rows * (stride + 1) {
      UndoneExactly(raw, plain, bpp, stride, rows);
      forall y: nat | y < rows
        ensures Scanline(raw, plain, bpp, stride, y) <==> EncodesRow(Redo(bpp), raw, plain, stride, y)
      {
        ScanlineExactly(raw, plain, bpp, stride, y);
      }
    }
  }

  /** Row y names none of the five types. */
  predicate Unknown(raw: seq<byte>, stride: nat, y: nat) {
    Size(y, stride + 1) < |raw| && raw[Size(y, stride + 1)] > 4
  }

  /** Row y is the first that does. */
  predicate FirstUnknown(raw: seq<byte>, stride: nat, rows: nat, y: nat, kind: byte) {
    y < rows && Unknown(raw, stride, y) && raw[Size(y, stride + 1)] == kind
    && forall z: nat :: z < y ==> !Unknown(raw, stride, z)
  }

  lemma {:induction false} TopFailsExactly(u: RowOp, raw: seq<byte>, stride: nat, rows: nat, e: Error)
    requires KeepsLength(u) && |raw| >= Size(rows, stride + 1)
    ensures UnfilterTop(u, raw, stride, rows) == Err(e)
       <==> e.UnknownFilter? && FirstUnknown(raw, stride, rows, e.row, e.kind)
    ensures UnfilterTop(u, raw, stride, rows).Ok? <==> forall z: nat :: z < rows ==> !Unknown(raw, stride, z)
  {
    if rows > 0 {
      TopFailsExactly(u, raw, stride, rows - 1, e);
      assert Unknown(raw, stride, rows - 1) <==> raw[Size(rows - 1, stride + 1)] > 4;
    }
  }

  /** It fails exactly on data too short, or at the first row of an unknown type. */
  lemma {:induction false} UnfilterFailsExactly(raw: seq<byte>, width: nat, rows: nat, bpp: nat, e: Error)
    requires bpp > 0
    ensures Unfiltered(raw, width, rows, bpp) == Err(e)
       <==> if |raw| < rows * (width * bpp + 1) then e == TooShort(|raw|, rows * (width * bpp + 1))
            else e.UnknownFilter? && FirstUnknown(raw, width * bpp, rows, e.row, e.kind)
  {
    var stride: nat := width * bpp;
    SizeIsProduct(rows, stride);
    SizeIsProduct(rows, stride + 1);
    if |raw| >= rows * (stride + 1) {
      UndoRedo(bpp);
      TopFailsExactly(Undo(bpp), raw, stride, rows, e);
    }
  }

  /** Fewer rows are exactly the top of the rows. */
  lemma {:induction false} FewerRows(u: RowOp, v: RowOp, raw: seq<byte>, stride: nat, rows: nat, fewer: nat)
    requires Inverses(u, v) && |raw| >= Size(rows, stride + 1) && fewer <= rows
    requires UnfilterTop(u, raw, stride, rows).Ok?
    ensures Size(fewer, stride + 1) <= |raw| && Size(fewer, stride) <= Size(rows, stride)
    ensures UnfilterTop(u, raw, stride, fewer) == Ok(UnfilterTop(u, raw, stride, rows).value[..Size(fewer, stride)])
  {
    SizeGrows(fewer, rows, stride);
    SizeGrows(fewer, rows, stride + 1);
    var plain := UnfilterTop(u, raw, stride, rows).value;
    UndoneIsEncoded(u, v, raw, plain, stride, rows);
    EncodedIsUndone(u, v, raw, plain, stride, fewer);
  }

  lemma {:induction false} OneRowEncoded(v: RowOp, raw: seq<byte>, plain: seq<byte>, stride: nat, y: nat)
    requires EncodesTop(v, raw, plain, stride, y) && EncodesRow(v, raw, plain, stride, y)
    ensures EncodesTop(v, raw, plain, stride, y + 1)
  {
  }

  lemma {:induction false} FilteredIsEncoded(v: RowOp, kinds: seq<byte>, raw: seq<byte>, plain: seq<byte>, stride: nat, rows: nat)
    requires KeepsLength(v) && Filters(kinds) && rows <= |kinds| && |plain| >= Size(rows, stride)
    requires FilterTop(v, kinds, plain, stride, rows) <= raw
    ensures EncodesTop(v, raw, plain, stride, rows)
  {
    if rows > 0 {
      var y := rows - 1;
      GluedRowEncodes(v, kinds, raw, plain, stride, y, FilterTop(v, kinds, plain, stride, y));
      SizeGrows(y, rows, stride);
      FilteredIsEncoded(v, kinds, raw, plain, stride, y);
      OneRowEncoded(v, raw, plain, stride, y);
    }
  }

  lemma {:induction false} GluedRowEncodes(v: RowOp, kinds: seq<byte>, raw: seq<byte>, plain: seq<byte>, stride: nat, y: nat, top: seq<byte>)
    requires KeepsLength(v) && y < |kinds| && kinds[y] <= 4 && |plain| >= Size(y + 1, stride) && |top| == Size(y, stride + 1)
    requires top + [kinds[y]] + v(kinds[y], RowOf(plain, stride, y), RowAbove(plain, stride, y)) <= raw
    ensures top <= raw && EncodesRow(v, raw, plain, stride, y)
  {
    GlueRow(top, kinds[y], v(kinds[y], RowOf(plain, stride, y), RowAbove(plain, stride, y)), raw);
  }

  lemma {:induction false} GlueRow(top: seq<byte>, kind: byte, filtered: seq<byte>, raw: seq<byte>)
    requires top + [kind] + filtered <= raw
    ensures top <= raw && raw[|top|] == kind && raw[|top| + 1..|top| + 1 + |filtered|] == filtered
  {
    var all := top + [kind] + filtered;
    assert all[|top|] == kind && all[|top| + 1..] == filtered && all[..|top|] == top;
  }

  /** A whole image filtered, each row with the type chosen for it. */
  function FilteredImage(kinds: seq<byte>, plain: seq<byte>, width: nat, bpp: nat): seq<byte>
    requires bpp > 0 && |plain| == |kinds| * (width * bpp)
  {
    UndoRedo(bpp);
    SizeIsProduct(|kinds|, width * bpp);
    FilterTop(Redo(bpp), kinds, plain, width * bpp, |kinds|)
  }

  /** Undoing after filtering gives the image back, whatever types were chosen and whatever
      follows the image data. */
  lemma {:induction false} UnfilterUndoesFilter(kinds: seq<byte>, plain: seq<byte>, width: nat, bpp: nat, extra: seq<byte>)
    requires bpp > 0 && Filters(kinds) && |plain| == |kinds| * (width * bpp)
    ensures Unfiltered(FilteredImage(kinds, plain, width, bpp) + extra, width, |kinds|, bpp) == Ok(plain)
  {
    var stride: nat, rows := width * bpp, |kinds|;
    SizeIsProduct(rows, stride);
    SizeIsProduct(rows, stride + 1);
    UndoRedo(bpp);
    var raw := FilteredImage(kinds, plain, width, bpp) + extra;
    FilteredIsEncoded(Redo(bpp), kinds, raw, plain, stride, rows);
    UndoneExactly(raw, plain, bpp, stride, rows);
  }

  lemma {:induction false} LastOfAppended(done: seq<byte>, row: seq<byte>)
    ensures LastRow(done + row, |row|) == row
  {
    assert (done + row)[|done|..] == row;
  }

  lemma {:induction false} OneRowMore(u: RowOp, raw: seq<byte>, stride: nat, y: nat, done: seq<byte>)
    requires KeepsLength(u) && |raw| >= Size(y + 1, stride + 1) && UnfilterTop(u, raw, stride, y) == Ok(done)
    ensures var pos := Size(y, stride + 1);
            raw[pos] <= 4 ==>
                 var row := u(raw[pos], raw[pos + 1..pos + 1 + stride], LastRow(done, stride));
                 UnfilterTop(u, raw, stride, y + 1) == Ok(done + row) && LastRow(done + row, stride) == row
  {
    var pos := Size(y, stride + 1);
    LastOfAppended(done, u(raw[pos], raw[pos + 1..pos + 1 + stride], LastRow(done, stride)));
  }

  /** The first bad row decides the error. */
  lemma {:induction false} ErrorStands(u: RowOp, raw: seq<byte>, stride: nat, rows: nat, y: nat)
    requires KeepsLength(u) && |raw| >= Size(rows, stride + 1) && y < rows && Size(y, stride + 1) < |raw|
    requires UnfilterTop(u, raw, stride, y).Ok? && raw[Size(y, stride + 1)] > 4
    ensures UnfilterTop(u, raw, stride, rows) == Err(UnknownFilter(y, raw[Size(y, stride + 1)]))
  {
    if y < rows - 1 {
      ErrorStands(u, raw, stride, rows - 1, y);
    }
  }

  // ----- the loop -----------------------------------------------------------------------

  /** `_unfilter`, row by row into one buffer. */
  method Unfilter(raw: seq<byte>, width: nat, rows: nat, bpp: nat) returns (r: Result<seq<byte>>)
    requires bpp > 0
    ensures r == Unfiltered(raw, width, rows, bpp)
  {
    var stride: nat := width * bpp;
    var expected: nat := rows * (stride + 1);
    if |raw| < expected {
      return Err(TooShort(|raw|, expected));
    }
    SizeIsProduct(rows, stride);
    SizeIsProduct(rows, stride + 1);
    var out := new byte[rows * stride];
    UndoRedo(bpp);
    r := UnfilterInto(Undo(bpp), raw, stride, rows, bpp, out);
  }

  /** y rows are done: `done` is what they undid to, `above` the last of them. */
  ghost predicate RowsDone(u: RowOp, raw: seq<byte>, stride: nat, y: nat, done: seq<byte>, above: seq<byte>)
    requires KeepsLength(u)
  {
    |raw| >= Size(y, stride + 1) && UnfilterTop(u, raw, stride, y) == Ok(done) && LastRow(done, stride) == above
  }

  lemma {:induction false} NoRowsDone(u: RowOp, raw: seq<byte>, stride: nat)
    requires KeepsLength(u)
    ensures RowsDone(u, raw, stride, 0, [], Zeros(stride))
  {
    assert stride == 0 ==> LastRow([], stride) == Zeros(0);
  }

  lemma {:induction false} AllRowsDone(u: RowOp, raw: seq<byte>, stride: nat, rows: nat, done: seq<byte>, above: seq<byte>)
    requires KeepsLength(u) && RowsDone(u, raw, stride, rows, done, above)
    ensures UnfilterTop(u, raw, stride, rows) == Ok(done) && |done| == Size(rows, stride)
  {
  }

  method UnfilterInto(ghost u: RowOp, raw: seq<byte>, stride: nat, rows: nat, bpp: nat, out: array<byte>)
    returns (r: Result<seq<byte>>)
    requires bpp > 0 && KeepsLength(u) && Undoes(u, bpp) && |raw| >= Size(rows, stride + 1) && out.Length == Size(rows, stride)
    modifies out
    ensures r == UnfilterTop(u, raw, stride, rows)
  {
    var prev := ZeroRow(stride);
    var pos: nat, at: nat, y: nat := 0, 0, 0;
    ghost var done: seq<byte> := [];
    NoRowsDone(u, raw, stride);
    while y < rows
      invariant 0 <= y <= rows && at == Size(y, stride) && pos == Size(y, stride + 1)
      invariant at <= out.Length && pos <= |raw| && prev.Length == stride && prev != out
      invariant out[..at] == done && RowsDone(u, raw, stride, y, done, prev[..])
    {
      RowLeft(raw, out.Length, stride, rows, y);
      if raw[pos] > 4 {
        ErrorStands(u, raw, stride, rows, y);
        return Err(UnknownFilter(y, raw[pos]));
      }
      prev, done := NextRow(u, raw, stride, y, pos, bpp, prev, out, at, done);
      pos, at, y := pos + 1 + stride, at + stride, y + 1;
    }
    AllRowsDone(u, raw, stride, rows, done, prev[..]);
    assert out[..at] == out[..];
    return Ok(out[..]);
  }

  /** While rows are left there is room for one. */
  lemma {:induction false} RowLeft(raw: seq<byte>, room: nat, stride: nat, rows: nat, y: nat)
    requires y < rows && |raw| >= Size(rows, stride + 1) && room == Size(rows, stride)
    ensures |raw| >= Size(y, stride + 1) + stride + 1 && room >= Size(y, stride) + stride
    ensures Size(y + 1, stride + 1) == Size(y, stride + 1) + stride + 1 && Size(y + 1, stride) == Size(y, stride) + stride
  {
    SizeGrows(y + 1, rows, stride);
    SizeGrows(y + 1, rows, stride + 1);
  }

  method ZeroRow(n: nat) returns (row: array<byte>)
    ensures fresh(row) && row.Length == n && row[..] == Zeros(n)
  {
    row := new byte[n](_ => 0);
  }

  /** One row taken from the data, undone and copied out. */
  method NextRow(ghost u: RowOp, raw: seq<byte>, ghost stride: nat, ghost y: nat, pos: nat, bpp: nat, prev: array<byte>,
                 out: array<byte>, at: nat, ghost done: seq<byte>) returns (row: array<byte>, ghost next: seq<byte>)
    requires bpp > 0 && KeepsLength(u) && Undoes(u, bpp) && prev != out && prev.Length == stride
    requires |raw| >= Size(y + 1, stride + 1) && pos == Size(y, stride + 1) && raw[pos] <= 4 && at + stride <= out.Length
    requires out[..at] == done && RowsDone(u, raw, stride, y, done, prev[..])
    modifies out
    ensures row != out && row.Length == stride
    ensures out[..at + stride] == next && RowsDone(u, raw, stride, y + 1, next, row[..])
  {
    ghost var above := prev[..];
    row := TakeRow(u, raw, pos, bpp, prev);
    RowAdded(u, raw, stride, y, done, above, row[..]);
    next := done + row[..];
    CopyRow(out, at, row);
  }

  lemma {:induction false} RowAdded(u: RowOp, raw: seq<byte>, stride: nat, y: nat, done: seq<byte>, above: seq<byte>, row: seq<byte>)
    requires KeepsLength(u) && |raw| >= Size(y + 1, stride + 1) && RowsDone(u, raw, stride, y, done, above)
    requires var pos := Size(y, stride + 1);
             raw[pos] <= 4 && row == u(raw[pos], raw[pos + 1..pos + 1 + stride], above)
    ensures RowsDone(u, raw, stride, y + 1, done + row, row)
  {
    OneRowMore(u, raw, stride, y, done);
  }

  /** `row = bytearray(raw[pos + 1 : pos + 1 + stride])`, undone in place. */
  method TakeRow(ghost u: RowOp, raw: seq<byte>, pos: nat, bpp: nat, prev: array<byte>) returns (row: array<byte>)
    requires bpp > 0 && Undoes(u, bpp) && pos + 1 + prev.Length <= |raw| && raw[pos] <= 4
    ensures fresh(row) && row.Length == prev.Length
    ensures row[..] == u(raw[pos], raw[pos + 1..pos + 1 + prev.Length], prev[..])
  {
    row := new byte[prev.Length](i requires 0 <= i < prev.Length && pos + 1 + prev.Length <= |raw| => raw[pos + 1 + i]);
    assert row[..] == raw[pos + 1..pos + 1 + prev.Length];
    assert UndoesAt(u, bpp, raw[pos], row[..], prev[..]);
    UndoRow(raw[pos], bpp, row, prev);
  }

  /** `out[y * stride : (y + 1) * stride] = row`. */
  method CopyRow(out: array<byte>, at: nat, row: array<byte>)
    requires out != row && at + row.Length <= out.Length
    modifies out
    ensures out[..at + row.Length] == old(out[..at]) + row[..]
  {
    forall i | 0 <= i < row.Length {
      out[at + i] := row[i];
    }
  }
}
