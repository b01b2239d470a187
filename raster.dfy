/**
 * The dataset assembler of sniff2img (lines 52-72): every payload, a string
 * of hex digits, is drawn as a `Rows` x `Cols` block of byte values side by
 * side in one grid that starts out filled with 255.
 */
module Raster {
  import opened Common
  import opened Strings
  import opened Hex

  const Mtu: nat := 1514
  const Cols: nat := 32
  /** `ceil(mtu / cols)`, in integers. */
  const Rows: nat := (Mtu + Cols - 1) / Cols
  /** Packets drawn: fixed, not the number of payloads found. */
  const Packets: nat := 100
  const Width: nat := Cols * Packets
  const Pad: int := 255

  /** No payload character beyond this many is ever read: the last row starts at (Rows-1)*Cols and reads 2*Cols. */
  const ReadLimit: nat := (Rows - 1) * Cols + 2 * Cols

  lemma RowsIsCeiling()
    ensures Rows == 48 && (Rows - 1) * Cols < Mtu <= Rows * Cols
    ensures Width == 3200 && ReadLimit == 1568
  {
  }

  /** Hex offset read for row `r`, column `c`: the row stride is `Cols` digits although a row reads `2 * Cols`. */
  function Offset(r: nat, c: nat): (o: nat)
    ensures o == 2 * (r * (Cols / 2) + c)
  {
    assert r * Cols == 2 * (r * (Cols / 2));
    r * Cols + 2 * c
  }

  /** The grid column of column `c` of packet `p`'s block. */
  function Column(p: nat, c: nat): (j: nat)
    requires p < Packets && c < Cols
    ensures p * Cols <= j < p * Cols + Cols <= Width
  {
    assert p * Cols + Cols <= Packets * Cols;
    p * Cols + c
  }

  predicate AllWords(payloads: seq<string>)
  {
    forall p :: 0 <= p < |payloads| ==> IsWord(payloads[p])
  }

  /**
   * What cell (r, c) of a payload's block holds: the base-16 value of the
   * (at most) two digits at `Offset(r, c)` when that offset is inside the
   * payload, else the padding left by the initial fill; `None` where
   * `int(_, 16)` raises.
   */
  function Cell(payload: string, r: nat, c: nat): (v: Option<int>)
    requires IsWord(payload)
    ensures v.Some? ==> 0 <= v.value <= 255
  {
    var o := Offset(r, c);
    if o > |payload| - 1 then Some(Pad)
    else
      var text := payload[o..Min(o + 2, |payload|)];
      assert IsWord(text);
      ParseHex(text)
  }

  /** Row-major order on cells. */
  predicate Before(r1: nat, c1: nat, r2: nat, c2: nat)
  {
    r1 < r2 || (r1 == r2 && c1 < c2)
  }

  /** Every cell from (r1, c1) up to, not including, (r2, c2) in row-major order parses. */
  ghost predicate CellsOk(payload: string, r1: nat, c1: nat, r2: nat, c2: nat)
    requires IsWord(payload)
  {
    forall r: nat, c: nat :: r < Rows && c < Cols && !Before(r, c, r1, c1) && Before(r, c, r2, c2) ==> Cell(payload, r, c).Some?
  }

  /** The first cell at or after (r, c), in the order the loops visit them, whose digits do not parse. */
  function FirstBadFrom(payload: string, r: nat, c: nat): (b: Option<(nat, nat)>)
    requires IsWord(payload) && r <= Rows && c <= Cols
    ensures b.Some? ==> b.value.0 < Rows && b.value.1 < Cols
    decreases Rows - r, Cols - c
  {
    if r == Rows then None
    else if c == Cols then FirstBadFrom(payload, r + 1, 0)
    else if Cell(payload, r, c).None? then Some((r, c))
    else FirstBadFrom(payload, r, c + 1)
  }

  /**
   * The search finds nothing exactly when every remaining cell parses, and
   * otherwise stops at an unparsable cell with only parsable cells before it.
   */
  lemma {:induction false} FirstBadMeaning(payload: string, r: nat, c: nat)
    requires IsWord(payload) && r <= Rows && c <= Cols
    ensures FirstBadFrom(payload, r, c).None? <==> CellsOk(payload, r, c, Rows, 0)
    ensures FirstBadFrom(payload, r, c).Some? ==> var (br, bc) := FirstBadFrom(payload, r, c).value;
      && !Before(br, bc, r, c)
      && Cell(payload, br, bc).None? && CellsOk(payload, r, c, br, bc)
    decreases Rows - r, Cols - c
  {
    if r == Rows {
    } else if c == Cols {
      FirstBadMeaning(payload, r + 1, 0);
      CellsOkRowEnd(payload, r, Rows, 0);
      if FirstBadFrom(payload, r, c).Some? {
        var (br, bc) := FirstBadFrom(payload, r, c).value;
        CellsOkRowEnd(payload, r, br, bc);
      }
    } else if Cell(payload, r, c).None? {
      CellsOkStep(payload, r, c, Rows, 0);
    } else {
      FirstBadMeaning(payload, r, c + 1);
      CellsOkStep(payload, r, c, Rows, 0);
      if FirstBadFrom(payload, r, c).Some? {
        var (br, bc) := FirstBadFrom(payload, r, c).value;
        CellsOkStep(payload, r, c, br, bc);
      }
    }
  }

  /** The cells from (r, c) on parse when cell (r, c) does and those from (r, c + 1) on do. */
  lemma CellsOkStep(payload: string, r: nat, c: nat, r2: nat, c2: nat)
    requires IsWord(payload) && r < Rows && c < Cols && Before(r, c, r2, c2)
    ensures CellsOk(payload, r, c, r2, c2) <==> Cell(payload, r, c).Some? && CellsOk(payload, r, c + 1, r2, c2)
  {
  }

  /** Past the last column the cells from the next row on follow. */
  lemma CellsOkRowEnd(payload: string, r: nat, r2: nat, c2: nat)
    requires IsWord(payload)
    ensures CellsOk(payload, r, Cols, r2, c2) <==> CellsOk(payload, r + 1, 0, r2, c2)
  {
  }

  /** How the loops of lines 62-72 fail. */
  datatype RasterError =
    | BadHex(packet: nat, row: nat, col: nat)  // ValueError from `int(_, 16)`
    | TooFewPackets(found: nat)                // IndexError at `tmp[p]`

  /**
   * The first failure met by the packet loop from packet `p` on: an
   * unparsable cell of a packet, or running out of payloads before packet
   * `Packets - 1`; `None` when all packets are drawn.
   */
  function FirstError(payloads: seq<string>, p: nat): (e: Option<RasterError>)
    requires AllWords(payloads) && p <= Packets && p <= |payloads|
    ensures e.None? ==> Packets <= |payloads|
    decreases Packets - p
  {
    if p == Packets then None
    else if p >= |payloads| then Some(TooFewPackets(|payloads|))
    else
      match FirstBadFrom(payloads[p], 0, 0)
      case Some((r, c)) => Some(BadHex(p, r, c))
      case None => FirstError(payloads, p + 1)
  }

  /** When the packet loop draws every packet, there are enough payloads and no packet has an unparsable cell. */
  lemma {:induction false} FirstErrorNone(payloads: seq<string>, p: nat)
    requires AllWords(payloads) && p <= Packets && p <= |payloads|
    requires FirstError(payloads, p).None?
    ensures Packets <= |payloads|
    ensures forall q {:trigger FirstBadFrom(payloads[q], 0, 0)} :: p <= q < Packets ==> FirstBadFrom(payloads[q], 0, 0).None?
    decreases Packets - p
  {
    if p < Packets {
      FirstErrorNone(payloads, p + 1);
    }
  }

  /** The IndexError is raised only when the payloads run out before any unparsable cell. */
  lemma {:induction false} FirstErrorTooFew(payloads: seq<string>, p: nat)
    requires AllWords(payloads) && p <= Packets && p <= |payloads|
    requires FirstError(payloads, p).Some? && FirstError(payloads, p).value.TooFewPackets?
    ensures FirstError(payloads, p).value.found == |payloads| < Packets
    ensures forall q :: p <= q < |payloads| ==> FirstBadFrom(payloads[q], 0, 0).None?
    decreases Packets - p
  {
    if p < |payloads| {
      FirstErrorTooFew(payloads, p + 1);
    }
  }

  /** The ValueError is raised at the first unparsable cell of the first packet that has one. */
  lemma {:induction false} FirstErrorBadHex(payloads: seq<string>, p: nat)
    requires AllWords(payloads) && p <= Packets && p <= |payloads|
    requires FirstError(payloads, p).Some? && FirstError(payloads, p).value.BadHex?
    ensures var BadHex(q, r, c) := FirstError(payloads, p).value;
      && p <= q < |payloads| && q < Packets
      && FirstBadFrom(payloads[q], 0, 0) == Some((r, c))
      && forall q' :: p <= q' < q ==> FirstBadFrom(payloads[q'], 0, 0).None?
    decreases Packets - p
  {
    if FirstBadFrom(payloads[p], 0, 0).None? {
      FirstErrorBadHex(payloads, p + 1);
    }
  }

  /** A row that starts past the end of the payload, and every row after it, only holds padding. */
  lemma {:induction false} PastEndIsPad(payload: string, r: nat, c: nat)
    requires IsWord(payload) && r <= Rows && c <= Cols && r * Cols > |payload| - 1
    ensures FirstBadFrom(payload, r, c) == None
    ensures forall r': nat, c': nat :: r <= r' < Rows && c' < Cols ==> Cell(payload, r', c') == Some(Pad)
    decreases Rows - r, Cols - c
  {
    if r == Rows {
    } else if c == Cols {
      PastEndIsPad(payload, r + 1, 0);
    } else {
      PastEndIsPad(payload, r, c + 1);
    }
  }

  /** Columns whose offset is past the end hold padding for the rest of the row, so the search moves to the next row. */
  lemma {:induction false} RowTailIsPad(payload: string, r: nat, c: nat)
    requires IsWord(payload) && r < Rows && c <= Cols && Offset(r, c) > |payload| - 1
    ensures FirstBadFrom(payload, r, c) == FirstBadFrom(payload, r + 1, 0)
    ensures forall c': nat :: c <= c' < Cols ==> Cell(payload, r, c') == Some(Pad)
    decreases Cols - c
  {
    if c < Cols {
      RowTailIsPad(payload, r, c + 1);
    }
  }

  /**
   * One pass of the column loop (lines 68-72) for row `r` of packet `p`:
   * writes the cells of the row up to the column `break`, where the offset
   * passes the end; returns the column whose digits do not parse, where
   * sniff2img raises.
   */
  method DrawRow(grid: array2<int>, p: nat, payload: string, r: nat) returns (bad: Option<nat>)
    requires grid.Length0 == Rows && grid.Length1 == Width && p < Packets && r < Rows && IsWord(payload)
    requires forall j :: p * Cols <= j < p * Cols + Cols ==> grid[r, j] == Pad
    modifies grid
    ensures forall i, j :: 0 <= i < Rows && 0 <= j < Width && (i != r || !(p * Cols <= j < p * Cols + Cols)) ==> grid[i, j] == old(grid[i, j])
    ensures bad.Some? ==> bad.value < Cols && FirstBadFrom(payload, r, 0) == Some((r, bad.value))
    ensures bad.None? ==> FirstBadFrom(payload, r, 0) == FirstBadFrom(payload, r + 1, 0)
    ensures bad.None? ==> forall c: nat :: c < Cols ==> Cell(payload, r, c) == Some(grid[r, Column(p, c)])
  {
    var size := |payload|;
    for c := 0 to Cols
      invariant FirstBadFrom(payload, r, c) == FirstBadFrom(payload, r, 0)
      invariant forall c': nat :: c' < c ==> Cell(payload, r, c') == Some(grid[r, Column(p, c')])
      invariant forall j :: p * Cols + c <= j < p * Cols + Cols ==> grid[r, j] == Pad
      invariant forall i, j :: 0 <= i < Rows && 0 <= j < Width && (i != r || !(p * Cols <= j < p * Cols + Cols)) ==> grid[i, j] == old(grid[i, j])
    {
      var o := r * Cols + 2 * c;
      if o > size - 1 {
        RowTailIsPad(payload, r, c);
        return None;
      }
      var text := payload[o..Min(o + 2, size)];
      assert IsWord(text);
      var v := ParseHex(text);
      assert v == Cell(payload, r, c);
      if v.None? {
        return Some(c);
      }
      label Drawn:
      grid[r, Column(p, c)] := v.value;
      forall c': nat | c' <= c ensures Cell(payload, r, c') == Some(grid[r, Column(p, c')]) {
        if c' != c {
          assert grid[r, Column(p, c')] == old@Drawn(grid[r, Column(p, c')]);
        }
      }
    }
    return None;
  }

  /**
   * Draws one payload into its block, columns `p * Cols` to `p * Cols + Cols`
   * (lines 63-72): the row loop, left by its `break` once a row starts past
   * the end of the payload; returns the cell whose digits do not parse.
   */
  method DrawPacket(grid: array2<int>, p: nat, payload: string) returns (bad: Option<(nat, nat)>)
    requires grid.Length0 == Rows && grid.Length1 == Width && p < Packets && IsWord(payload)
    requires forall i, j :: 0 <= i < Rows && p * Cols <= j < p * Cols + Cols ==> grid[i, j] == Pad
    modifies grid
    ensures bad == FirstBadFrom(payload, 0, 0)
    ensures forall i, j :: 0 <= i < Rows && 0 <= j < Width && !(p * Cols <= j < p * Cols + Cols) ==> grid[i, j] == old(grid[i, j])
    ensures bad.None? ==> forall r: nat, c: nat :: r < Rows && c < Cols ==> Cell(payload, r, c) == Some(grid[r, Column(p, c)])
  {
    var size := |payload|;
    for r := 0 to Rows
      invariant FirstBadFrom(payload, r, 0) == FirstBadFrom(payload, 0, 0)
      invariant forall r': nat, c: nat :: r' < r && c < Cols ==> Cell(payload, r', c) == Some(grid[r', Column(p, c)])
      invariant forall i, j :: r <= i < Rows && p * Cols <= j < p * Cols + Cols ==> grid[i, j] == Pad
      invariant forall i, j :: 0 <= i < Rows && 0 <= j < Width && !(p * Cols <= j < p * Cols + Cols) ==> grid[i, j] == old(grid[i, j])
    {
      if r * Cols > size - 1 {
        PastEndIsPad(payload, r, 0);
        return None;
      }
      label Row:
      var badCol := DrawRow(grid, p, payload, r);
      if badCol.Some? {
        return Some((r, badCol.value));
      }
      forall r': nat, c: nat | r' <= r && c < Cols ensures Cell(payload, r', c) == Some(grid[r', Column(p, c)]) {
        if r' != r {
          assert grid[r', Column(p, c)] == old@Row(grid[r', Column(p, c)]);
        }
      }
    }
    return None;
  }

  /** Every column of an earlier block lies left of block `p`. */
  lemma BlockBefore(q: nat, p: nat, c: nat)
    requires q < p < Packets && c < Cols
    ensures Column(q, c) < p * Cols
  {
    assert (q + 1) * Cols <= p * Cols;
  }

  /**
   * One turn of the packet loop (lines 62-72): draws block `p` into a grid
   * whose earlier blocks are drawn and whose later blocks are still padding.
   */
  method DrawBlock(grid: array2<int>, payloads: seq<string>, p: nat) returns (bad: Option<(nat, nat)>)
    requires grid.Length0 == Rows && grid.Length1 == Width && AllWords(payloads) && p < Packets && p < |payloads|
    requires forall q: nat, r: nat, c: nat :: q < p && r < Rows && c < Cols ==> Cell(payloads[q], r, c) == Some(grid[r, Column(q, c)])
    requires forall i, j :: 0 <= i < Rows && p * Cols <= j < Width ==> grid[i, j] == Pad
    modifies grid
    ensures bad == FirstBadFrom(payloads[p], 0, 0)
    ensures bad.None? ==> forall q: nat, r: nat, c: nat :: q <= p && r < Rows && c < Cols ==> Cell(payloads[q], r, c) == Some(grid[r, Column(q, c)])
    ensures forall i, j :: 0 <= i < Rows && (p + 1) * Cols <= j < Width ==> grid[i, j] == Pad
  {
    assert (p + 1) * Cols == p * Cols + Cols;
    label Packet:
    bad := DrawPacket(grid, p, payloads[p]);
    forall i, j | 0 <= i < Rows && (p + 1) * Cols <= j < Width ensures grid[i, j] == Pad {
      assert grid[i, j] == old@Packet(grid[i, j]);
    }
    if bad.None? {
      forall q: nat, r: nat, c: nat | q <= p && r < Rows && c < Cols
        ensures Cell(payloads[q], r, c) == Some(grid[r, Column(q, c)])
      {
        if q < p {
          BlockBefore(q, p, c);
          assert Cell(payloads[q], r, c) == Some(old@Packet(grid[r, Column(q, c)]));
          assert grid[r, Column(q, c)] == old@Packet(grid[r, Column(q, c)]);
        }
      }
    }
  }

  /**
   * The packet loop of lines 58-72: a fresh grid filled with `Pad`, one block
   * per packet. On success cell (r, p * Cols + c) of the grid is `Cell` of
   * payload `p`; on failure the error is the first one in loop order.
   */
  method Rasterize(payloads: seq<string>) returns (result: Result<array2<int>, RasterError>)
    requires AllWords(payloads)
    ensures result.Err? ==> FirstError(payloads, 0) == Some(result.error)
    ensures result.Ok? ==>
      && FirstError(payloads, 0).None? && fresh(result.value)
      && result.value.Length0 == Rows && result.value.Length1 == Width
      && forall p: nat, r: nat, c: nat :: p < Packets && r < Rows && c < Cols ==> Cell(payloads[p], r, c) == Some(result.value[r, Column(p, c)])
  {
    var grid := new int[Rows, Width]((i, j) => Pad);
    for p := 0 to Packets
      invariant p <= |payloads|
      invariant FirstError(payloads, p) == FirstError(payloads, 0)
      invariant forall q: nat, r: nat, c: nat :: q < p && r < Rows && c < Cols ==> Cell(payloads[q], r, c) == Some(grid[r, Column(q, c)])
      invariant forall i, j :: 0 <= i < Rows && p * Cols <= j < Width ==> grid[i, j] == Pad
    {
      if p >= |payloads| {
        assert FirstError(payloads, p) == Some(TooFewPackets(|payloads|));
        return Err(TooFewPackets(|payloads|));
      }
      var bad := DrawBlock(grid, payloads, p);
      if bad.Some? {
        assert FirstError(payloads, p) == Some(BadHex(p, bad.value.0, bad.value.1));
        return Err(BadHex(p, bad.value.0, bad.value.1));
      }
      assert FirstError(payloads, p) == FirstError(payloads, p + 1);
    }
    return Ok(grid);
  }

  /**
   * Rows overlap: a row reads `2 * Cols` digits but the next row starts only
   * `Cols` digits later, so the right half of a row repeats the left half of
   * the row below it.
   */
  lemma RowOverlap(payload: string, r: nat, c: nat)
    requires IsWord(payload) && r + 1 < Rows && c < Cols / 2
    ensures Cell(payload, r, c + Cols / 2) == Cell(payload, r + 1, c)
  {
    assert (r + 1) * Cols == r * Cols + Cols;
    assert Offset(r, c + Cols / 2) == Offset(r + 1, c);
  }

  /** Truncation: only the first `ReadLimit` digits of a payload decide its block. */
  lemma OnlyPrefixRead(payload: string, r: nat, c: nat)
    requires IsWord(payload) && r < Rows && c < Cols
    ensures var prefix := payload[..Min(|payload|, ReadLimit)];
      IsWord(prefix) && Cell(payload, r, c) == Cell(prefix, r, c)
  {
    var prefix := payload[..Min(|payload|, ReadLimit)];
    assert IsWord(prefix);
    var o := Offset(r, c);
    assert o + 2 <= ReadLimit by {
      assert r * Cols <= (Rows - 1) * Cols;
    }
    if o <= |payload| - 1 {
      assert payload[o..Min(o + 2, |payload|)] == prefix[o..Min(o + 2, |prefix|)];
    }
  }

  /** A cell that reads only the last digit of an odd-length tail holds a value below 16. */
  lemma OddTail(payload: string, r: nat, c: nat)
    requires IsWord(payload) && Offset(r, c) == |payload| - 1 && Cell(payload, r, c).Some?
    ensures Cell(payload, r, c).value < 16
  {
    var o := Offset(r, c);
    var text := payload[o..Min(o + 2, |payload|)];
    assert |text| == 1;
    assert Pow16(1) == 16;
  }

  /** Padding: an empty payload leaves its whole block at 255. */
  lemma EmptyPayloadPads(r: nat, c: nat)
    ensures Cell("", r, c) == Some(Pad)
  {
  }

  /** A cell whose offset has two digits after it holds their base-16 value. */
  lemma TwoDigitCell(payload: string, r: nat, c: nat, v: int)
    requires IsWord(payload) && Offset(r, c) + 2 <= |payload|
    requires IsHexDigit(payload[Offset(r, c)]) && IsHexDigit(payload[Offset(r, c) + 1])
    requires v == 16 * DigitValue(payload[Offset(r, c)]) + DigitValue(payload[Offset(r, c) + 1])
    ensures Cell(payload, r, c) == Some(v)
  {
    var o := Offset(r, c);
    var text := payload[o..o + 2];
    assert text[0] == payload[o] && text[1] == payload[o + 1];
    ParseHexIff(text);
  }

  /**
   * For a payload that renders bytes as hex, cell (r, c) holds byte
   * `16 * r + c` (half a row's width times the row, plus the column) while
   * there is one, and padding past the end.
   */
  lemma PixelIsByte(bs: seq<Byte>, r: nat, c: nat)
    requires c < Cols
    ensures Cell(Encode(bs), r, c) == Some(if r * (Cols / 2) + c < |bs| then bs[r * (Cols / 2) + c] else Pad)
  {
    var k := r * (Cols / 2) + c;
    if k < |bs| {
      EncodedCell(bs, r, c, k);
    }
  }

  /** The cell at offset `2k` of a rendered payload holds byte `k`. */
  lemma EncodedCell(bs: seq<Byte>, r: nat, c: nat, k: nat)
    requires k < |bs| && Offset(r, c) == 2 * k
    ensures Cell(Encode(bs), r, c) == Some(bs[k])
  {
    EncodedDigits(bs, k, Offset(r, c));
    TwoDigitCell(Encode(bs), r, c, bs[k]);
  }

  /** Payloads after the first `Packets` are never looked at. */
  lemma {:induction false} IgnoresExtraPayloads(payloads: seq<string>, p: nat)
    requires AllWords(payloads) && Packets <= |payloads| && p <= Packets
    ensures AllWords(payloads[..Packets])
    ensures FirstError(payloads, p) == FirstError(payloads[..Packets], p)
    decreases Packets - p
  {
    assert AllWords(payloads[..Packets]);
    if p < Packets {
      assert payloads[..Packets][p] == payloads[p];
      IgnoresExtraPayloads(payloads, p + 1);
    }
  }

  /** The payload `48656c6c6f` puts the bytes of "Hello" in the first five cells of row 0... */
  lemma HelloBytes(c: nat)
    requires c < 5
    ensures Cell("48656c6c6f", 0, c) == Some([72, 101, 108, 108, 111][c])
  {
    var payload := "48656c6c6f";
    assert |payload| == 10 && IsWord(payload);
    assert Offset(0, c) == 2 * c;
    TwoDigitCell(payload, 0, c, [72, 101, 108, 108, 111][c]);
  }

  /** ...and leaves every other cell of its block padded. */
  lemma HelloPadding(r: nat, c: nat)
    requires r > 0 || c >= 5
    ensures Cell("48656c6c6f", r, c) == Some(Pad)
  {
    if r > 0 {
      assert r * Cols >= Cols;
    }
  }

  /** The digits `4g` do not parse: sniff2img raises on the first cell of a packet holding them. */
  lemma BadDigitRaises(payloads: seq<string>)
    requires AllWords(payloads) && |payloads| > 0 && payloads[0] == "4g"
    ensures FirstError(payloads, 0) == Some(BadHex(0, 0, 0))
  {
    var payload := payloads[0];
    assert |payload| == 2 && !IsHexDigit(payload[1]);
    assert payload[Offset(0, 0)..Min(Offset(0, 0) + 2, |payload|)] == payload;
    ParseHexIff(payload);
    assert Cell(payload, 0, 0).None?;
  }
}
