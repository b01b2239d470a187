/**
 * sniff2img end to end (lines 27-72): the repr text of a tcpdump hex dump is
 * split into lines, tokenized into one hex payload per packet, and the first
 * `Packets` payloads are drawn into the dataset grid.
 */
module Sniff {
  import opened Common
  import opened Strings
  import opened Tokenizer
  import opened Raster

  /** Where sniff2img stops instead of producing a grid. */
  datatype Failure =
    | TokenizeFailed(token: TokenError)
    | RasterizeFailed(raster: RasterError)

  /** The lines the tokenizer loops over (line 27). */
  function DumpLines(dump: string): (lines: seq<string>)
    requires IsReprText(dump)
    ensures |lines| >= 1 && AllRepr(lines)
    ensures Join(lines, LineBreak) == dump
  {
    JoinSplit(dump, LineBreak);
    Split(dump, LineBreak)
  }

  /**
   * The whole conversion. A grid is produced only when the tokenizer and the
   * packet loop both finish; its cell (r, p * Cols + c) is then `Cell` of the
   * payload of the `p`-th marker line of the dump.
   */
  method Sniff2Img(dump: string) returns (result: Result<array2<int>, Failure>)
    requires IsReprText(dump)
    ensures result.Err? && result.error.TokenizeFailed? ==>
      Scan(DumpLines(dump)) == Err(result.error.token)
    ensures result.Err? && result.error.RasterizeFailed? ==>
      && Scan(DumpLines(dump)).Ok?
      && AllWords(Scan(DumpLines(dump)).value)
      && FirstError(Scan(DumpLines(dump)).value, 0) == Some(result.error.raster)
    ensures result.Ok? ==>
      var lines := DumpLines(dump);
      && Scan(lines).Ok?
      && var payloads := Scan(lines).value;
      && |payloads| == |Markers(lines)| >= Packets
      && fresh(result.value) && result.value.Length0 == Rows && result.value.Length1 == Width
      && forall p: nat, r: nat, c: nat :: p < Packets && r < Rows && c < Cols ==>
           Record(lines, Markers(lines)[p]) == Ok(payloads[p])
           && IsWord(payloads[p])
           && Cell(payloads[p], r, c) == Some(result.value[r, Column(p, c)])
  {
    var lines := DumpLines(dump);
    var tokens := Tokenize(lines);
    if tokens.Err? {
      return Err(TokenizeFailed(tokens.error));
    }
    var payloads := tokens.value;
    ScanParsed(lines);
    var grid := Rasterize(payloads);
    if grid.Err? {
      return Err(RasterizeFailed(grid.error));
    }
    return Ok(grid.value);
  }
}
