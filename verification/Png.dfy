/** PNG reconstruction as in stb_image: row filters (section 6 of RFC 2083) and interlacing (section 2.6). */
module Png {
  import opened Arith

  // ----- the Paeth predictor

  function Abs(x: int): (r: nat) {
    if x < 0 then -x else x
  }

  /** The predictor as RFC 2083 states it. */
  function PaethReference(a: int, b: int, c: int): (r: int) {
    var p := a + b - c;
    if Abs(p - a) <= Abs(p - b) && Abs(p - a) <= Abs(p - c) then a
    else if Abs(p - b) <= Abs(p - c) then b else c
  }

  /** `stbi__paeth` */
  function Paeth(a: int, b: int, c: int): (r: int)
    ensures r == PaethReference(a, b, c)
  {
    var thresh := c * 3 - (a + b);
    var lo := if a < b then a else b;
    var hi := if a < b then b else a;
    var t0 := if hi <= thresh then lo else c;
    if thresh <= lo then hi else t0
  }

  // ----- filters

  datatype Filter = None_ | Sub | Up | Average | PaethFilter

  /** The prediction from the bytes to the left, above, and above left. */
  function Predict(f: Filter, a: byte, b: byte, c: byte): (r: nat) {
    match f
    case None_ => 0
    case Sub => a
    case Up => b
    case Average => (a as int + b as int) / 2
    case PaethFilter => PaethReference(a, b, c)
  }

  /** The byte `bpp` places to the left, zero at the start of the row. */
  function Left(row: seq<byte>, k: nat, bpp: nat): (r: byte)
    requires k < |row|
  {
    if k >= bpp && bpp >= 1 then row[k - bpp] else 0
  }

  function PredictAt(f: Filter, cur: seq<byte>, prior: seq<byte>, k: nat, bpp: nat): (r: nat)
    requires k < |cur| == |prior|
  {
    Predict(f, Left(cur, k, bpp), prior[k], Left(prior, k, bpp))
  }

  function Sum8(a: byte, p: nat): (r: byte) {
    (a as int + p) % 256
  }

  function Minus8(a: byte, p: nat): (r: byte) {
    (a as int - p) % 256
  }

  lemma {:induction false} MinusThenSum(a: byte, p: nat)
    ensures Sum8(Minus8(a, p), p) == a
  {
  }

  /** What an encoder sends for a row. */
  function FilterRow(f: Filter, row: seq<byte>, prior: seq<byte>, bpp: nat): (r: seq<byte>)
    requires |row| == |prior|
    ensures |r| == |row| && forall k :: 0 <= k < |row| ==> r[k] == Minus8(row[k], PredictAt(f, row, prior, k, bpp))
  {
    seq(|row|, k requires 0 <= k < |row| => Minus8(row[k], PredictAt(f, row, prior, k, bpp)))
  }

  /** The row the decoder owes for the bytes `raw`. */
  ghost predicate Reconstructs(f: Filter, raw: seq<byte>, prior: seq<byte>, bpp: nat, cur: seq<byte>) {
    && |raw| == |prior| == |cur|
    && forall k :: 0 <= k < |cur| ==> cur[k] == Sum8(raw[k], PredictAt(f, cur, prior, k, bpp))
  }

  /** Reconstruction inverts the filter, and only the original row reconstructs it. */
  lemma {:induction false} FilterInverse(f: Filter, row: seq<byte>, prior: seq<byte>, bpp: nat, cur: seq<byte>)
    requires |row| == |prior| && bpp >= 1
    ensures Reconstructs(f, FilterRow(f, row, prior, bpp), prior, bpp, cur) <==> cur == row
  {
    var raw := FilterRow(f, row, prior, bpp);
    forall k | 0 <= k < |row| ensures row[k] == Sum8(raw[k], PredictAt(f, row, prior, k, bpp)) {
      MinusThenSum(row[k], PredictAt(f, row, prior, k, bpp));
    }
    if Reconstructs(f, raw, prior, bpp, cur) {
      forall k | 0 <= k < |row| ensures cur[k] == row[k] {
        SamePrefix(f, raw, prior, bpp, cur, row, k);
      }
    }
  }

  lemma {:induction false} SamePrefix(f: Filter, raw: seq<byte>, prior: seq<byte>, bpp: nat, cur: seq<byte>,
                                      row: seq<byte>, k: nat)
    requires Reconstructs(f, raw, prior, bpp, cur) && Reconstructs(f, raw, prior, bpp, row) && k < |cur| && bpp >= 1
    ensures cur[k] == row[k]
    decreases k
  {
    if k >= bpp {
      SamePrefix(f, raw, prior, bpp, cur, row, k - bpp);
    }
    assert PredictAt(f, cur, prior, k, bpp) == PredictAt(f, row, prior, k, bpp);
  }

  // ----- the row loops

  /** The filter loops actually run: the five filters and the average without a prior row. */
  datatype Loop = Run(f: Filter) | AverageFirst

  /** `first_row_filter` */
  function FirstRow(f: Filter): (l: Loop) {
    match f
    case None_ => Run(None_)
    case Sub => Run(Sub)
    case Up => Run(None_)
    case Average => AverageFirst
    case PaethFilter => Run(Sub)
  }

  function Zeros(n: nat): (z: seq<byte>)
    ensures |z| == n && forall k :: 0 <= k < n ==> z[k] == 0
  {
    seq(n, k => 0)
  }

  /** What a loop adds at position `k`, given the row so far. */
  function LoopAdds(l: Loop, cur: seq<byte>, prior: seq<byte>, k: nat, bpp: nat): (p: nat)
    requires k < |cur| == |prior|
  {
    match l
    case Run(f) => PredictAt(f, cur, prior, k, bpp)
    case AverageFirst => Left(cur, k, bpp) as int / 2
  }

  /** The substituted filter predicts over any prior row what the original predicts over zeros. */
  lemma {:induction false} FirstRowEquivalent(f: Filter, cur: seq<byte>, prior: seq<byte>, k: nat, bpp: nat)
    requires k < |cur| == |prior|
    ensures LoopAdds(FirstRow(f), cur, prior, k, bpp) == PredictAt(f, cur, Zeros(|cur|), k, bpp)
  {
  }

  ghost predicate LoopDone(l: Loop, raw: seq<byte>, prior: seq<byte>, bpp: nat, cur: seq<byte>, n: nat) {
    && |raw| == |prior| == |cur| && n <= |cur|
    && forall k :: 0 <= k < n ==> cur[k] == Sum8(raw[k], LoopAdds(l, cur, prior, k, bpp))
  }

  lemma {:induction false} LoopReconstructs(f: Filter, raw: seq<byte>, prior: seq<byte>, bpp: nat, cur: seq<byte>,
                                            first: bool)
    requires LoopDone(if first then FirstRow(f) else Run(f), raw, prior, bpp, cur, |cur|)
    ensures Reconstructs(f, raw, if first then Zeros(|cur|) else prior, bpp, cur)
  {
    if first {
      forall k | 0 <= k < |cur| ensures cur[k] == Sum8(raw[k], PredictAt(f, cur, Zeros(|cur|), k, bpp)) {
        FirstRowEquivalent(f, cur, prior, k, bpp);
      }
    }
  }

  /** One step of a loop depends on the bytes written so far only. */
  lemma {:induction false} LoopStep(l: Loop, raw: seq<byte>, prior: seq<byte>, bpp: nat, cur: seq<byte>,
                                    cur': seq<byte>, k: nat)
    requires bpp >= 1 && k < |cur| == |cur'| && LoopDone(l, raw, prior, bpp, cur, k) && (forall x :: 0 <= x < k ==> cur'[x] == cur[x])
    requires cur'[k] == Sum8(raw[k], LoopAdds(l, cur, prior, k, bpp))
    ensures LoopDone(l, raw, prior, bpp, cur', k + 1)
  {
    forall x | 0 <= x < k + 1 ensures cur'[x] == Sum8(raw[x], LoopAdds(l, cur', prior, x, bpp)) {
      assert LoopAdds(l, cur', prior, x, bpp) == LoopAdds(l, cur, prior, x, bpp);
    }
  }

  /** The body of the row loop: reconstructs one half of the filter buffer from the other half. */
  method Unfilter(buf: array<byte>, curAt: nat, priorAt: nat, raw: seq<byte>, bpp: nat, l: Loop)
    requires 1 <= bpp <= |raw| && curAt + |raw| <= buf.Length && priorAt + |raw| <= buf.Length
    requires curAt + |raw| <= priorAt || priorAt + |raw| <= curAt
    modifies buf
    ensures buf[priorAt..priorAt + |raw|] == old(buf[priorAt..priorAt + |raw|])
    ensures LoopDone(l, raw, buf[priorAt..priorAt + |raw|], bpp, buf[curAt..curAt + |raw|], |raw|)
  {
    hide Predict, Sum8;
    var nk := |raw|;
    ghost var prior := buf[priorAt..priorAt + nk];
    for k := 0 to nk
      invariant buf[priorAt..priorAt + nk] == prior
      invariant LoopDone(l, raw, prior, bpp, buf[curAt..curAt + nk], k)
    {
      ghost var cur := buf[curAt..curAt + nk];
      var left: byte := if k >= bpp then buf[curAt + k - bpp] else 0;
      var above := buf[priorAt + k];
      var aboveLeft: byte := if k >= bpp then buf[priorAt + k - bpp] else 0;
      assert above == prior[k] && aboveLeft == Left(prior, k, bpp) && left == Left(cur, k, bpp);
      var p := LoopPrediction(l, k, bpp, left, above, aboveLeft);
      buf[curAt + k] := Sum8(raw[k], p);
      LoopStep(l, raw, prior, bpp, cur, buf[curAt..curAt + nk], k);
    }
  }

  /** The cases of the `switch`, with the first bytes of a row treated as the source does. */
  method LoopPrediction(l: Loop, k: nat, bpp: nat, left: byte, above: byte, aboveLeft: byte) returns (p: nat)
    requires k < bpp ==> left == 0 && aboveLeft == 0
    ensures p == match l case Run(f) => Predict(f, left, above, aboveLeft) case AverageFirst => left as int / 2
  {
    match l
    case Run(None_) =>
      p := 0;
    case Run(Sub) =>
      p := if k < bpp then 0 else left;
    case Run(Up) =>
      p := above;
    case Run(Average) =>
      p := if k < bpp then above as int / 2 else (above as int + left as int) / 2;
    case Run(PaethFilter) =>
      p := if k < bpp then above else Paeth(left, above, aboveLeft);
    case AverageFirst =>
      p := if k < bpp then 0 else left as int / 2;
  }

  // ----- whole images

  function FilterOf(b: byte): (f: Filter)
    requires b <= 4
  {
    if b == 0 then None_ else if b == 1 then Sub else if b == 2 then Up else if b == 3 then Average else PaethFilter
  }

  function FilterByte(f: Filter): (b: byte)
    ensures b <= 4 && FilterOf(b) == f
  {
    match f
    case None_ => 0
    case Sub => 1
    case Up => 2
    case Average => 3
    case PaethFilter => 4
  }

  /** The row above row `j`; all zero above the first. */
  function Prior(rows: seq<seq<byte>>, j: nat, n: nat): (r: seq<byte>)
    requires j <= |rows|
  {
    if j == 0 then Zeros(n) else rows[j - 1]
  }

  /** Row `j` is the reconstruction of its filter byte and its `n` data bytes over the row above. */
  ghost predicate RowOk(raw: seq<byte>, n: nat, bpp: nat, rows: seq<seq<byte>>, j: nat)
    requires j < |rows|
  {
    var at := Times(n + 1, j);
    && at + n + 1 <= |raw| && raw[at] <= 4
    && Reconstructs(FilterOf(raw[at]), raw[at + 1..at + n + 1], Prior(rows, j, n), bpp, rows[j])
  }

  lemma {:induction false} RowKept(raw: seq<byte>, n: nat, bpp: nat, rows: seq<seq<byte>>, row: seq<byte>, j: nat)
    requires j < |rows| && RowOk(raw, n, bpp, rows, j)
    ensures RowOk(raw, n, bpp, rows + [row], j)
  {
    hide Reconstructs, Times, FilterOf;
    assert (rows + [row])[j] == rows[j];
    assert Prior(rows + [row], j, n) == Prior(rows, j, n);
  }

  /** Row `j` starts with a byte that names no filter. */
  predicate BadFilter(raw: seq<byte>, n: nat, j: nat) {
    Times(n + 1, j) < |raw| && raw[Times(n + 1, j)] > 4
  }

  /** The half of the filter buffer that row `j` is reconstructed in. */
  function Half(j: nat, n: nat): (at: nat) {
    if j % 2 == 1 then n else 0
  }

  /** One row: the other half of the buffer holds the row above. */
  method ReconstructRow(buf: array<byte>, j: nat, n: nat, f: Filter, data: seq<byte>, bpp: nat) returns (row: seq<byte>)
    requires 1 <= bpp <= n == |data| && buf.Length == 2 * n
    modifies buf
    ensures buf[Half(j, n)..Half(j, n) + n] == row
    ensures Reconstructs(f, data, if j == 0 then Zeros(n) else old(buf[Half(j + 1, n)..Half(j + 1, n) + n]), bpp, row)
  {
    hide Reconstructs, LoopDone, FirstRow;
    var curAt, priorAt := Half(j, n), Half(j + 1, n);
    Unfilter(buf, curAt, priorAt, data, bpp, if j == 0 then FirstRow(f) else Run(f));
    row := buf[curAt..curAt + n];
    LoopReconstructs(f, data, buf[priorAt..priorAt + n], bpp, row, j == 0);
  }

  /** The row loop of `stbi__create_png_image_raw`, for samples that are whole bytes and need no extra channel. */
  method ReconstructImage(raw: seq<byte>, n: nat, y: nat, bpp: nat) returns (ok: bool, rows: seq<seq<byte>>)
    requires 1 <= bpp <= n
    ensures ok ==> |rows| == y && forall j :: 0 <= j < y ==> RowOk(raw, n, bpp, rows, j)
    ensures !ok ==> |raw| < Times(n + 1, y) || exists j: nat :: j < y && BadFilter(raw, n, j)
  {
    hide Reconstructs, Times, RowOk, FilterOf;
    ok, rows := false, [];
    var size := Times(n + 1, y);
    if |raw| < size {
      return;
    }
    var buf := new byte[2 * n];
    var at: nat := 0;
    TimesZero(n + 1);
    for j := 0 to y
      invariant !ok && |rows| == j && at == Times(n + 1, j)
      invariant forall i :: 0 <= i < j ==> RowOk(raw, n, bpp, rows, i)
      invariant j > 0 ==> InHalf(buf, j, n, rows[j - 1])
    {
      TimesNext(n + 1, j, y);
      if raw[at] > 4 {
        assert BadFilter(raw, n, j);
        return;
      }
      var row := ReconstructRow(buf, j, n, FilterOf(raw[at]), raw[at + 1..at + n + 1], bpp);
      RowsExtend(raw, n, bpp, rows, row, at);
      rows := rows + [row];
      at := at + n + 1;
    }
    ok := true;
  }

  ghost predicate InHalf(buf: array<byte>, j: nat, n: nat, row: seq<byte>)
    reads buf
  {
    Half(j + 1, n) + n <= buf.Length && buf[Half(j + 1, n)..Half(j + 1, n) + n] == row
  }

  lemma {:induction false} RowsExtend(raw: seq<byte>, n: nat, bpp: nat, rows: seq<seq<byte>>, row: seq<byte>, at: nat)
    requires at == Times(n + 1, |rows|) && at + n + 1 <= |raw| && raw[at] <= 4
    requires forall i :: 0 <= i < |rows| ==> RowOk(raw, n, bpp, rows, i)
    requires Reconstructs(FilterOf(raw[at]), raw[at + 1..at + n + 1], Prior(rows, |rows|, n), bpp, row)
    ensures forall i :: 0 <= i <= |rows| ==> RowOk(raw, n, bpp, rows + [row], i)
  {
    hide Reconstructs, Times, FilterOf;
    var all, j := rows + [row], |rows|;
    forall i | 0 <= i <= j ensures RowOk(raw, n, bpp, all, i) {
      if i < j {
        RowKept(raw, n, bpp, rows, row, i);
      } else {
        assert Prior(all, j, n) == Prior(rows, j, n) && all[j] == row;
      }
    }
  }

  lemma {:induction false} TimesZero(unit: nat)
    ensures Times(unit, 0) == 0
  {
  }

  lemma {:induction false} TimesNext(unit: nat, j: nat, y: nat)
    requires j < y
    ensures Times(unit, j + 1) == Times(unit, j) + unit <= Times(unit, y)
  {
    TimesMono(unit, j + 1, y);
  }

  /** The data an encoder sends for an image with one filter chosen per row. */
  ghost predicate Encodes(raw: seq<byte>, n: nat, bpp: nat, rows: seq<seq<byte>>, filters: seq<Filter>) {
    && |filters| == |rows|
    && forall j :: 0 <= j < |rows| ==> EncodesRow(raw, n, bpp, rows, filters, j)
  }

  ghost predicate EncodesRow(raw: seq<byte>, n: nat, bpp: nat, rows: seq<seq<byte>>, filters: seq<Filter>, j: nat)
    requires j < |rows| == |filters|
  {
    var at := Times(n + 1, j);
    && at + n + 1 <= |raw| && |rows[j]| == n && |Prior(rows, j, n)| == n
    && raw[at] == FilterByte(filters[j])
    && raw[at + 1..at + n + 1] == FilterRow(filters[j], rows[j], Prior(rows, j, n), bpp)
  }

  /** Whatever filters the encoder chose, reconstruction gives the original image. */
  lemma {:induction false} ImageInverse(raw: seq<byte>, n: nat, bpp: nat, rows: seq<seq<byte>>, filters: seq<Filter>,
                                        decoded: seq<seq<byte>>, j: nat)
    requires Encodes(raw, n, bpp, rows, filters) && |decoded| == |rows| && bpp >= 1 && j < |rows|
    requires forall i :: 0 <= i < |rows| ==> RowOk(raw, n, bpp, decoded, i)
    ensures decoded[j] == rows[j]
  {
    hide Reconstructs, FilterRow, FilterOf, FilterByte, Times;
    if j > 0 {
      ImageInverse(raw, n, bpp, rows, filters, decoded, j - 1);
    }
    assert EncodesRow(raw, n, bpp, rows, filters, j) && RowOk(raw, n, bpp, decoded, j);
    FilterInverse(filters[j], rows[j], Prior(rows, j, n), bpp, decoded[j]);
  }

  // ----- interlacing

  const X_ORIGIN: seq<nat> := [0, 4, 0, 2, 0, 1, 0]
  const Y_ORIGIN: seq<nat> := [0, 0, 4, 0, 2, 0, 1]
  const X_SPACING: seq<nat> := [8, 8, 4, 4, 2, 2, 1]
  const Y_SPACING: seq<nat> := [8, 8, 8, 4, 4, 2, 2]

  /** The order of the pixels of an 8 by 8 square, as RFC 2083 prints it. */
  const PATTERN: seq<seq<nat>> := [
    [1, 6, 4, 6, 2, 6, 4, 6],
    [7, 7, 7, 7, 7, 7, 7, 7],
    [5, 6, 5, 6, 5, 6, 5, 6],
    [7, 7, 7, 7, 7, 7, 7, 7],
    [3, 6, 4, 6, 3, 6, 4, 6],
    [7, 7, 7, 7, 7, 7, 7, 7],
    [5, 6, 5, 6, 5, 6, 5, 6],
    [7, 7, 7, 7, 7, 7, 7, 7]]

  /** Pixels of a reduced image along one axis. */
  function PassSize(size: nat, origin: nat, spacing: nat): (n: nat)
    requires origin < spacing
  {
    (size - origin + spacing - 1) / spacing
  }

  predicate Axis(origin: nat, spacing: nat) {
    (spacing == 1 || spacing == 2 || spacing == 4 || spacing == 8) && origin < spacing
  }

  /** The `i`-th pixel of a reduced row lies in the image exactly when `i` is below the size. */
  lemma {:induction false} PassSizeIs(size: nat, origin: nat, spacing: nat, i: nat)
    requires Axis(origin, spacing)
    ensures i < PassSize(size, origin, spacing) <==> i * spacing + origin < size
  {
    if spacing == 1 {
    } else if spacing == 2 {
    } else if spacing == 4 {
    } else {
    }
  }

  /** Position `x` is on the grid of an axis exactly when it leaves the origin as remainder. */
  lemma {:induction false} OnGrid(x: nat, origin: nat, spacing: nat)
    requires Axis(origin, spacing)
    ensures x % 8 % spacing == x % spacing
    ensures x % spacing == origin ==> x / spacing * spacing + origin == x
    ensures forall i: nat :: i * spacing + origin == x ==> i == x / spacing && x % spacing == origin
  {
    var q, r := x / 8, x % 8;
    if spacing == 1 {
      DivUnique(x, 1, x, 0);
    } else if spacing == 2 {
      DivUnique(x, 2, 4 * q + r / 2, r % 2);
    } else if spacing == 4 {
      DivUnique(x, 4, 2 * q + r / 4, r % 4);
    }
    GridPoints(x, origin, spacing);
  }

  lemma {:induction false} GridPoints(x: nat, origin: nat, spacing: nat)
    requires origin < spacing
    ensures x % spacing == origin ==> x / spacing * spacing + origin == x
    ensures forall i: nat :: i * spacing + origin == x ==> i == x / spacing && x % spacing == origin
  {
    forall i: nat | i * spacing + origin == x ensures i == x / spacing && x % spacing == origin {
      DivUnique(x, spacing, i, origin);
    }
  }

  predicate Covers(p: nat, x: nat, y: nat)
    requires p < 7
  {
    x % X_SPACING[p] == X_ORIGIN[p] && y % Y_SPACING[p] == Y_ORIGIN[p]
  }

  /** The pass that carries a pixel, read off the printed square. */
  function PassOf(x: nat, y: nat): (p: nat)
    ensures p < 7
  {
    PatternRange(x % 8, y % 8);
    PATTERN[y % 8][x % 8] - 1
  }

  lemma {:induction false} PatternRange(a: nat, b: nat)
    requires a < 8 && b < 8
    ensures |PATTERN[b]| == 8 && 1 <= PATTERN[b][a] <= 7
  {
  }

  lemma {:induction false} Axes(p: nat)
    requires p < 7
    ensures Axis(X_ORIGIN[p], X_SPACING[p]) && Axis(Y_ORIGIN[p], Y_SPACING[p])
  {
  }

  /** Origins and spacings of the seven passes reproduce the printed square. */
  lemma {:induction false} Square(p: nat, a: nat, b: nat)
    requires p < 7 && a < 8 && b < 8
    ensures |PATTERN[b]| == 8 && (Covers(p, a, b) <==> PATTERN[b][a] == p + 1)
  {
    PatternRange(a, b);
  }

  lemma {:induction false} CoversIff(p: nat, x: nat, y: nat)
    requires p < 7
    ensures Covers(p, x, y) <==> PassOf(x, y) == p
  {
    Axes(p);
    OnGrid(x, X_ORIGIN[p], X_SPACING[p]);
    OnGrid(y, Y_ORIGIN[p], Y_SPACING[p]);
    Square(p, x % 8, y % 8);
  }

  /** Pixel `i` of row `j` of pass `p` is written to column `x` of row `y`. */
  predicate Writes(w: nat, h: nat, p: nat, i: nat, j: nat, x: nat, y: nat) {
    && p < 7 && Axis(X_ORIGIN[p], X_SPACING[p]) && Axis(Y_ORIGIN[p], Y_SPACING[p])
    && i < PassSize(w, X_ORIGIN[p], X_SPACING[p]) && j < PassSize(h, Y_ORIGIN[p], Y_SPACING[p])
    && i * X_SPACING[p] + X_ORIGIN[p] == x && j * Y_SPACING[p] + Y_ORIGIN[p] == y
  }

  /** Every pixel of an image of any size is written exactly once, and nothing else is written. */
  lemma {:induction false} WrittenOnce(w: nat, h: nat, p: nat, i: nat, j: nat, x: nat, y: nat)
    ensures Writes(w, h, p, i, j, x, y) <==>
      x < w && y < h && p == PassOf(x, y) && i == x / X_SPACING[p] && j == y / Y_SPACING[p]
  {
    hide PassOf, Axis;
    if p < 7 {
      Axes(p);
      CoversIff(p, x, y);
      AxisWrites(w, X_ORIGIN[p], X_SPACING[p], i, x);
      AxisWrites(h, Y_ORIGIN[p], Y_SPACING[p], j, y);
    }
  }

  lemma {:induction false} AxisWrites(size: nat, origin: nat, spacing: nat, i: nat, x: nat)
    requires Axis(origin, spacing)
    ensures i < PassSize(size, origin, spacing) && i * spacing + origin == x <==>
      x < size && x % spacing == origin && i == x / spacing
  {
    hide PassSize;
    PassSizeIs(size, origin, spacing, i);
    OnGrid(x, origin, spacing);
  }

  /** The reduced image of pass `p` has the right shape. */
  predicate PassShape<T>(pass: seq<seq<T>>, w: nat, h: nat, p: nat)
    requires p < 7
  {
    && Axis(X_ORIGIN[p], X_SPACING[p]) && Axis(Y_ORIGIN[p], Y_SPACING[p])
    && |pass| == PassSize(h, Y_ORIGIN[p], Y_SPACING[p])
    && forall j :: 0 <= j < |pass| ==> |pass[j]| == PassSize(w, X_ORIGIN[p], X_SPACING[p])
  }

  ghost predicate PixelIs<T>(passes: seq<seq<seq<T>>>, w: nat, h: nat, x: nat, y: nat, v: T)
    requires |passes| == 7 && forall p :: 0 <= p < 7 ==> PassShape(passes[p], w, h, p)
  {
    forall p: nat, i: nat, j: nat :: Writes(w, h, p, i, j, x, y) ==> PassShape(passes[p], w, h, p) && v == passes[p][j][i]
  }

  /** Everything written up to pixel `i` of row `j` of pass `p` is in place. */
  predicate Before(x: nat, y: nat, p: nat, j: nat, i: nat) {
    var q := PassOf(x, y);
    q < p || (q == p && (y / Y_SPACING[q] < j || (y / Y_SPACING[q] == j && x / X_SPACING[q] < i)))
  }

  /** The de-interlacing loops of `stbi__create_png_image`. */
  method Deinterlace<T>(passes: seq<seq<seq<T>>>, w: nat, h: nat, final: array2<T>)
    requires |passes| == 7 && (forall p :: 0 <= p < 7 ==> PassShape(passes[p], w, h, p))
    requires final.Length0 == h && final.Length1 == w
    modifies final
    ensures forall x: nat, y: nat :: x < w && y < h ==> PixelIs(passes, w, h, x, y, final[y, x])
  {
    hide PassOf, Writes, PassSize, Axis;
    for p := 0 to 7
      invariant forall x: nat, y: nat :: x < w && y < h && Before(x, y, p, 0, 0) ==> PixelIs(passes, w, h, x, y, final[y, x])
    {
      DeinterlacePass(passes, w, h, p, final);
    }
  }

  method DeinterlacePass<T>(passes: seq<seq<seq<T>>>, w: nat, h: nat, p: nat, final: array2<T>)
    requires p < 7 && |passes| == 7 && (forall q :: 0 <= q < 7 ==> PassShape(passes[q], w, h, q))
    requires final.Length0 == h && final.Length1 == w
    requires forall x: nat, y: nat :: x < w && y < h && Before(x, y, p, 0, 0) ==> PixelIs(passes, w, h, x, y, final[y, x])
    modifies final
    ensures forall x: nat, y: nat :: x < w && y < h && Before(x, y, p + 1, 0, 0) ==> PixelIs(passes, w, h, x, y, final[y, x])
  {
    hide PassOf, Writes, PassSize, Axis, PixelIs;
    assert PassShape(passes[p], w, h, p);
    var rows, cols := PassSize(h, Y_ORIGIN[p], Y_SPACING[p]), PassSize(w, X_ORIGIN[p], X_SPACING[p]);
    for j := 0 to rows
      invariant forall x: nat, y: nat :: x < w && y < h && Before(x, y, p, j, 0) ==> PixelIs(passes, w, h, x, y, final[y, x])
    {
      for i := 0 to cols
        invariant forall x: nat, y: nat :: x < w && y < h && Before(x, y, p, j, i) ==> PixelIs(passes, w, h, x, y, final[y, x])
      {
        var outY, outX := j * Y_SPACING[p] + Y_ORIGIN[p], i * X_SPACING[p] + X_ORIGIN[p];
        PlacePixel(passes, w, h, p, i, j, outX, outY);
        final[outY, outX] := passes[p][j][i];
      }
      RowDone(w, h, p, j, cols);
    }
    PassDone(w, h, p, rows);
  }

  lemma {:induction false} PlacePixel<T>(passes: seq<seq<seq<T>>>, w: nat, h: nat, p: nat, i: nat, j: nat, outX: nat,
                                         outY: nat)
    requires p < 7 && |passes| == 7 && (forall q :: 0 <= q < 7 ==> PassShape(passes[q], w, h, q))
    requires Axis(X_ORIGIN[p], X_SPACING[p]) && Axis(Y_ORIGIN[p], Y_SPACING[p])
    requires i < PassSize(w, X_ORIGIN[p], X_SPACING[p]) && j < PassSize(h, Y_ORIGIN[p], Y_SPACING[p])
    requires outX == i * X_SPACING[p] + X_ORIGIN[p] && outY == j * Y_SPACING[p] + Y_ORIGIN[p]
    ensures outX < w && outY < h && |passes[p]| > j && |passes[p][j]| > i
    ensures PixelIs(passes, w, h, outX, outY, passes[p][j][i])
    ensures forall x: nat, y: nat :: x < w && y < h && Before(x, y, p, j, i + 1) ==> Before(x, y, p, j, i) || (x == outX && y == outY)
  {
    hide PassOf, PassSize, Axis;
    assert PassShape(passes[p], w, h, p);
    assert Writes(w, h, p, i, j, outX, outY);
    WrittenOnce(w, h, p, i, j, outX, outY);
    forall q: nat, i': nat, j': nat | Writes(w, h, q, i', j', outX, outY) ensures q == p && i' == i && j' == j {
      WrittenOnce(w, h, q, i', j', outX, outY);
    }
    forall x: nat, y: nat | x < w && y < h && Before(x, y, p, j, i + 1) && !Before(x, y, p, j, i) ensures x == outX && y == outY {
      WrittenOnce(w, h, p, i, j, x, y);
    }
  }

  lemma {:induction false} RowDone(w: nat, h: nat, p: nat, j: nat, cols: nat)
    requires p < 7 && Axis(X_ORIGIN[p], X_SPACING[p]) && cols == PassSize(w, X_ORIGIN[p], X_SPACING[p])
    ensures forall x: nat, y: nat :: x < w && y < h && Before(x, y, p, j + 1, 0) ==> Before(x, y, p, j, cols)
  {
    hide PassOf, PassSize, Axis;
    forall x: nat, y: nat | x < w && y < h && Before(x, y, p, j + 1, 0) ensures Before(x, y, p, j, cols) {
      WrittenOnce(w, h, p, x / X_SPACING[p], y / Y_SPACING[p], x, y);
    }
  }

  lemma {:induction false} PassDone(w: nat, h: nat, p: nat, rows: nat)
    requires p < 7 && Axis(Y_ORIGIN[p], Y_SPACING[p]) && rows == PassSize(h, Y_ORIGIN[p], Y_SPACING[p])
    ensures forall x: nat, y: nat :: x < w && y < h && Before(x, y, p + 1, 0, 0) ==> Before(x, y, p, rows, 0)
  {
    hide PassOf, PassSize, Axis;
    forall x: nat, y: nat | x < w && y < h && Before(x, y, p + 1, 0, 0) ensures Before(x, y, p, rows, 0) {
      WrittenOnce(w, h, p, x / X_SPACING[p], y / Y_SPACING[p], x, y);
    }
  }
}
