/**
 * The dump tokenizer of sniff2img (lines 27-45): the repr text is split on
 * the literal `\r\n`, a line holding "IP" opens a record, and the cleaned
 * body lines that follow it are concatenated into that record's payload.
 */
module Tokenizer {
  import opened Common
  import opened Strings
  import opened LineClean

  /** The four characters backslash, r, backslash, n, as they appear in a repr. */
  const LineBreak: string := "\\r\\n"

  /** Ways the scan of sniff2img fails. */
  datatype TokenError =
    | MissingDoubleSpace(line: nat)  // `.start()` called on None at this line
    | Stalls(line: nat)              // the outer loop spins forever at this line

  predicate AllRepr(lines: seq<string>)
  {
    forall k {:trigger IsReprText(lines[k])} :: 0 <= k < |lines| ==> IsReprText(lines[k])
  }

  /** A line that ends the current record: it holds the marker or is at most one character long. */
  predicate EndsRecord(line: string): (b: bool)
    ensures b <==> |line| <= 1 || IndexOf(line, "IP").Some?
  {
    ContainsIff(line, "IP");
    Contains(line, "IP") || |line| <= 1
  }

  /** Index of the first line at or after `j` that ends a record; `|lines|` if there is none. */
  function RunEnd(lines: seq<string>, j: nat): (e: nat)
    requires j <= |lines|
    ensures j <= e <= |lines|
    ensures forall t {:trigger EndsRecord(lines[t])} :: j <= t < e ==> !EndsRecord(lines[t])
    ensures e < |lines| ==> EndsRecord(lines[e])
    decreases |lines| - j
  {
    if j == |lines| || EndsRecord(lines[j]) then j else RunEnd(lines, j + 1)
  }

  /** Every line run through the cleaning chain; None where the chain raises. */
  function Cleaned(lines: seq<string>): (cs: seq<Option<string>>)
    requires AllRepr(lines)
    ensures |cs| == |lines|
    ensures forall k :: 0 <= k < |cs| && cs[k].Some? ==> IsWord(cs[k].value)
    decreases |lines|
  {
    if |lines| == 0 then []
    else
      var last := |lines| - 1;
      assert AllRepr(lines[..last]);
      Cleaned(lines[..last]) + [CleanLine(lines[last])]
  }

  lemma {:induction false} CleanedAt(lines: seq<string>, k: nat)
    requires AllRepr(lines) && k < |lines|
    ensures Cleaned(lines)[k] == CleanLine(lines[k])
    decreases |lines|
  {
    var last := |lines| - 1;
    assert AllRepr(lines[..last]);
    if k < last {
      CleanedAt(lines[..last], k);
    }
  }

  /** The cleaned pieces concatenated in order; `Err(k)` for the first piece whose cleaning raised. */
  function Concat(cs: seq<Option<string>>): (r: Result<string, nat>)
    ensures r.Err? ==> r.error < |cs| && cs[r.error].None?
    decreases |cs|
  {
    if |cs| == 0 then Ok("")
    else
      var last := |cs| - 1;
      match Concat(cs[..last])
      case Err(k) => Err(k)
      case Ok(d) =>
        match cs[last]
        case None => Err(last)
        case Some(t) => Ok(d + t)
  }

  /** Concat succeeds exactly when every piece cleaned, and then only word characters remain. */
  lemma {:induction false} ConcatOk(cs: seq<Option<string>>)
    ensures Concat(cs).Ok? <==> forall k :: 0 <= k < |cs| ==> cs[k].Some?
    ensures Concat(cs).Ok? && (forall k :: 0 <= k < |cs| ==> cs[k].Some? && IsWord(cs[k].value))
      ==> IsWord(Concat(cs).value)
    decreases |cs|
  {
    if |cs| > 0 {
      var last := |cs| - 1;
      ConcatOk(cs[..last]);
      assert forall k :: 0 <= k < last ==> cs[..last][k] == cs[k];
    }
  }

  /** Extending a run of pieces by one: what one turn of the inner loop does to `data`. */
  lemma ConcatExtend(cs: seq<Option<string>>, a: nat, b: nat)
    requires a <= b < |cs|
    ensures Concat(cs[a..b + 1]) ==
      match Concat(cs[a..b])
      case Err(k) => Err(k)
      case Ok(d) => if cs[b].None? then Err(b - a) else Ok(d + cs[b].value)
  {
    assert cs[a..b + 1][..b - a] == cs[a..b];
  }

  /** One more piece that cleaned is appended to a run that succeeded. */
  lemma ConcatStep(cs: seq<Option<string>>, a: nat, b: nat, d: string, t: string)
    requires a <= b < |cs| && Concat(cs[a..b]) == Ok(d) && cs[b] == Some(t)
    ensures Concat(cs[a..b + 1]) == Ok(d + t)
  {
    ConcatExtend(cs, a, b);
  }

  /** A failing piece after a run of pieces that clean decides the outcome of a longer run. */
  lemma {:induction false} ConcatFailsAt(cs: seq<Option<string>>, a: nat, i: nat, e: nat)
    requires a <= i < e <= |cs| && cs[i].None?
    requires Concat(cs[a..i]).Ok?
    ensures Concat(cs[a..e]) == Err(i - a)
    decreases e
  {
    ConcatExtend(cs, a, e - 1);
    if e - 1 > i {
      ConcatFailsAt(cs, a, i, e - 1);
    }
  }

  /**
   * The payload of the record whose marker is line `m`: the run of lines
   * after it up to the next line that ends a record (the last line included
   * when the run reaches it); `Err(k)` names the line whose cleaning raises.
   */
  function Record(lines: seq<string>, m: nat): (r: Result<string, nat>)
    requires AllRepr(lines) && m < |lines|
    ensures r.Ok? ==> IsWord(r.value)
    ensures r.Err? ==> m < r.error < RunEnd(lines, m + 1)
  {
    var e := RunEnd(lines, m + 1);
    var body := Cleaned(lines)[m + 1..e];
    ConcatOk(body);
    match Concat(body)
    case Ok(d) => Ok(d)
    case Err(k) => Err(m + 1 + k)
  }

  /** Where the outer loop resumes after the record of marker `m`: the line that ended it, or the last line. */
  function ResumeAt(lines: seq<string>, m: nat): (i: nat)
    requires m + 1 < |lines|
    ensures m < i < |lines|
  {
    var e := RunEnd(lines, m + 1);
    if e == |lines| then |lines| - 1 else e
  }

  /**
   * What the two nested loops compute from line `i` on, `acc` holding the
   * payloads already appended to `parsed`.
   */
  function ScanFrom(lines: seq<string>, i: nat, acc: seq<string>): (r: Result<seq<string>, TokenError>)
    requires AllRepr(lines)
    ensures r.Ok? ==> |acc| <= |r.value| && r.value[..|acc|] == acc
    ensures r.Err? ==> i <= r.error.line < |lines|
    decreases |lines| - i
  {
    if i + 1 >= |lines| then Ok(acc)
    else if !Contains(lines[i], "IP") then Err(Stalls(i))
    else
      match Record(lines, i)
      case Err(k) => Err(MissingDoubleSpace(k))
      case Ok(d) => ScanFrom(lines, ResumeAt(lines, i), acc + [d])
  }

  function Scan(lines: seq<string>): (r: Result<seq<string>, TokenError>)
    requires AllRepr(lines)
    ensures r.Err? ==> r.error.line < |lines|
  {
    ScanFrom(lines, 0, [])
  }

  /** Lines 37-39 applied to line `i`. */
  method CleanBodyLine(lines: seq<string>, i: nat) returns (tmp: Option<string>)
    requires AllRepr(lines) && i < |lines|
    ensures tmp == Cleaned(lines)[i]
  {
    tmp := CleanLine(lines[i]);
    CleanedAt(lines, i);
  }

  /** The inner loop of sniff2img (lines 36-44): reads the record whose marker is line `m`. */
  method ReadRecord(lines: seq<string>, m: nat) returns (r: Result<(string, nat), nat>)
    requires AllRepr(lines) && m + 1 < |lines|
    ensures r.Ok? ==> Record(lines, m) == Ok(r.value.0) && r.value.1 == ResumeAt(lines, m)
    ensures r.Err? ==> Record(lines, m) == Err(r.error)
  {
    ghost var cs := Cleaned(lines);
    ghost var e := RunEnd(lines, m + 1);
    var i := m + 1;
    var data := "";
    assert cs[m + 1..i] == [];
    while !Contains(lines[i], "IP") && i <= |lines| - 1 && |lines[i]| > 1
      invariant m + 1 <= i <= |lines| - 1
      invariant e == RunEnd(lines, i)
      invariant Concat(cs[m + 1..i]) == Ok(data)
      decreases |lines| - i
    {
      var tmp := CleanBodyLine(lines, i);
      assert !EndsRecord(lines[i]);
      if tmp.None? {
        RecordFails(lines, m, i);
        return Err(i);
      }
      ConcatStep(cs, m + 1, i, data, tmp.value);
      data := data + tmp.value;
      if i == |lines| - 1 {
        assert e == RunEnd(lines, i + 1) == |lines| == i + 1;
        RecordDone(lines, m, data);
        return Ok((data, i));
      }
      i := i + 1;
    }
    RecordDone(lines, m, data);
    return Ok((data, i));
  }

  /** The record of marker `m` when its whole run cleans to `data`. */
  lemma RecordDone(lines: seq<string>, m: nat, data: string)
    requires AllRepr(lines) && m < |lines|
    requires Concat(Cleaned(lines)[m + 1..RunEnd(lines, m + 1)]) == Ok(data)
    ensures Record(lines, m) == Ok(data)
  {
  }

  /** The record of marker `m` when line `i` of its run is the first that fails to clean. */
  lemma RecordFails(lines: seq<string>, m: nat, i: nat)
    requires AllRepr(lines) && m < |lines| && m < i < RunEnd(lines, m + 1)
    requires Concat(Cleaned(lines)[m + 1..i]).Ok? && Cleaned(lines)[i].None?
    ensures Record(lines, m) == Err(i)
  {
    ConcatFailsAt(Cleaned(lines), m + 1, i, RunEnd(lines, m + 1));
  }

  /** The outer loop of sniff2img (lines 27-45), on the already split lines. */
  method Tokenize(lines: seq<string>) returns (r: Result<seq<string>, TokenError>)
    requires AllRepr(lines)
    ensures r == Scan(lines)
  {
    var parsed: seq<string> := [];
    var i := 0;
    while i < |lines| - 1
      invariant 0 <= i <= |lines|
      invariant ScanFrom(lines, i, parsed) == Scan(lines)
      decreases |lines| - i
    {
      if Contains(lines[i], "IP") {
        var record := ReadRecord(lines, i);
        if record.Err? {
          return Err(MissingDoubleSpace(record.error));
        }
        var (data, next) := record.value;
        i := next;
        parsed := parsed + [data];
      } else {
        // Here the outer loop of sniff2img repeats forever: `i` only advances on marker lines.
        return Err(Stalls(i));
      }
    }
    return Ok(parsed);
  }

  /** Indices, in file order, of the marker lines that lie below the last line, from line `i` on. */
  function MarkersFrom(lines: seq<string>, i: nat): (ms: seq<nat>)
    ensures forall k :: 0 <= k < |ms| ==> i <= ms[k] && ms[k] + 1 < |lines| && Contains(lines[ms[k]], "IP")
    ensures forall k, l :: 0 <= k < l < |ms| ==> ms[k] < ms[l]
    ensures forall j {:trigger Contains(lines[j], "IP")} :: i <= j && j + 1 < |lines| && Contains(lines[j], "IP") ==> j in ms
    decreases |lines| - i
  {
    if i + 1 >= |lines| then []
    else (if Contains(lines[i], "IP") then [i] else []) + MarkersFrom(lines, i + 1)
  }

  function Markers(lines: seq<string>): seq<nat>
  {
    MarkersFrom(lines, 0)
  }

  /** Lines without a marker do not change the markers still ahead. */
  lemma {:induction false} MarkersSkip(lines: seq<string>, a: nat, b: nat)
    requires a <= b < |lines|
    requires forall t {:trigger Contains(lines[t], "IP")} :: a <= t < b ==> !Contains(lines[t], "IP")
    ensures MarkersFrom(lines, a) == MarkersFrom(lines, b)
    decreases b - a
  {
    if a < b {
      assert !Contains(lines[a], "IP");
      assert MarkersFrom(lines, a) == MarkersFrom(lines, a + 1);
      MarkersSkip(lines, a + 1, b);
    }
  }

  lemma {:induction false} ScanFromParsed(lines: seq<string>, i: nat, acc: seq<string>)
    requires AllRepr(lines) && i < |lines| && ScanFrom(lines, i, acc).Ok?
    ensures var ps := ScanFrom(lines, i, acc).value; var ms := MarkersFrom(lines, i);
      && |ps| == |acc| + |ms| && ps[..|acc|] == acc
      && forall k :: 0 <= k < |ms| ==> Record(lines, ms[k]) == Ok(ps[|acc| + k])
    decreases |lines| - i
  {
    if i + 1 < |lines| {
      assert Contains(lines[i], "IP");
      var d := Record(lines, i).value;
      var n := ResumeAt(lines, i);
      var acc' := acc + [d];
      assert ScanFrom(lines, i, acc) == ScanFrom(lines, n, acc');
      ScanFromParsed(lines, n, acc');
      forall t | i + 1 <= t < n ensures !Contains(lines[t], "IP") {
        assert !EndsRecord(lines[t]);
      }
      MarkersSkip(lines, i + 1, n);
      var ms := MarkersFrom(lines, i);
      var ms' := MarkersFrom(lines, n);
      assert ms == [i] + ms';
      var ps := ScanFrom(lines, i, acc).value;
      assert ps[..|acc'|] == acc';
      assert ps[..|acc|] == acc' [..|acc|] == acc;
      var ps' := ScanFrom(lines, n, acc').value;
      assert ps == ps';
      PrependRecord(lines, i, d, ms', acc, acc', ps');
    }
  }

  /** Puts the record at marker `i` in front of the records already matched with the later markers. */
  lemma PrependRecord(lines: seq<string>, i: nat, d: string, ms: seq<nat>, acc: seq<string>, acc': seq<string>, ps: seq<string>)
    requires AllRepr(lines) && i + 1 < |lines| && Record(lines, i) == Ok(d) && acc' == acc + [d]
    requires |ps| == |acc'| + |ms| && ps[..|acc'|] == acc'
    requires forall k :: 0 <= k < |ms| ==> ms[k] < |lines| && Record(lines, ms[k]) == Ok(ps[|acc'| + k])
    ensures forall k :: 0 <= k < |[i] + ms| ==> Record(lines, ([i] + ms)[k]) == Ok(ps[|acc| + k])
  {
    forall k | 0 <= k < |[i] + ms| ensures Record(lines, ([i] + ms)[k]) == Ok(ps[|acc| + k]) {
      if k == 0 {
        assert ps[|acc|] == acc'[|acc|];
      } else {
        assert ([i] + ms)[k] == ms[k - 1];
      }
    }
  }

  /**
   * When the scan finishes, it has emitted one payload per marker line below
   * the last line, in file order, each being the cleaned run of lines after
   * its marker, and made of word characters only.
   */
  lemma ScanParsed(lines: seq<string>)
    requires AllRepr(lines) && Scan(lines).Ok?
    ensures var ps := Scan(lines).value; var ms := Markers(lines);
      && |ps| == |ms|
      && forall k :: 0 <= k < |ms| ==> Record(lines, ms[k]) == Ok(ps[k]) && IsWord(ps[k])
  {
    var ps := Scan(lines).value;
    var ms := Markers(lines);
    if |lines| > 0 {
      ScanFromParsed(lines, 0, []);
    }
    assert |ps| == |ms|;
    forall k | 0 <= k < |ms| ensures Record(lines, ms[k]) == Ok(ps[k]) && IsWord(ps[k]) {
      assert Record(lines, ms[k]) == Ok(ps[0 + k]);
    }
  }

  lemma {:induction false} ScanFromStalls(lines: seq<string>, i: nat, acc: seq<string>)
    requires AllRepr(lines) && ScanFrom(lines, i, acc).Err? && ScanFrom(lines, i, acc).error.Stalls?
    ensures var k := ScanFrom(lines, i, acc).error.line;
      i <= k && k + 1 < |lines| && !Contains(lines[k], "IP") && (k == i || |lines[k]| <= 1)
    decreases |lines| - i
  {
    if Contains(lines[i], "IP") {
      var n := ResumeAt(lines, i);
      ScanFromStalls(lines, n, acc + [Record(lines, i).value]);
    }
  }

  /**
   * The scan loops forever only on a line without marker that the outer
   * loop reaches before the last line: the first line, or a line of at most
   * one character that ended a record.
   */
  lemma ScanStalls(lines: seq<string>)
    requires AllRepr(lines) && Scan(lines).Err? && Scan(lines).error.Stalls?
    ensures var k := Scan(lines).error.line;
      k + 1 < |lines| && !Contains(lines[k], "IP") && (k == 0 || |lines[k]| <= 1)
  {
    ScanFromStalls(lines, 0, []);
  }

  /** A dump that opens with a marker and has no short line before its last line never hangs. */
  lemma WellFormedDumpTerminates(lines: seq<string>)
    requires AllRepr(lines)
    requires |lines| < 2 || Contains(lines[0], "IP")
    requires forall k :: 0 < k < |lines| - 1 ==> |lines[k]| > 1
    ensures !(Scan(lines).Err? && Scan(lines).error.Stalls?)
  {
    if Scan(lines).Err? && Scan(lines).error.Stalls? {
      ScanStalls(lines);
    }
  }

  lemma {:induction false} ScanFromMissing(lines: seq<string>, i: nat, acc: seq<string>)
    requires AllRepr(lines) && ScanFrom(lines, i, acc).Err? && ScanFrom(lines, i, acc).error.MissingDoubleSpace?
    ensures var k := ScanFrom(lines, i, acc).error.line;
      i < k < |lines| && !EndsRecord(lines[k]) && CleanLine(lines[k]).None?
    decreases |lines| - i
  {
    var r := Record(lines, i);
    if r.Err? {
      var e := RunEnd(lines, i + 1);
      var cs := Cleaned(lines);
      assert cs[i + 1..e][r.error - (i + 1)] == cs[r.error];
      CleanedAt(lines, r.error);
    } else {
      ScanFromMissing(lines, ResumeAt(lines, i), acc + [r.value]);
    }
  }

  /**
   * The AttributeError raised from line `i` on belongs to the record of
   * marker `j`, the first marker from `i` on whose record fails; the
   * records of the markers before it all clean.
   */
  lemma {:induction false} ScanFromMissingAt(lines: seq<string>, i: nat, acc: seq<string>) returns (j: nat)
    requires AllRepr(lines) && ScanFrom(lines, i, acc).Err? && ScanFrom(lines, i, acc).error.MissingDoubleSpace?
    ensures var ms := MarkersFrom(lines, i);
      && j < |ms|
      && Record(lines, ms[j]) == Err(ScanFrom(lines, i, acc).error.line)
      && forall j' :: 0 <= j' < j ==> Record(lines, ms[j']).Ok?
    decreases |lines| - i
  {
    assert i + 1 < |lines| && Contains(lines[i], "IP");
    var r := Record(lines, i);
    if r.Err? {
      assert ScanFrom(lines, i, acc) == Err(MissingDoubleSpace(r.error));
      assert MarkersFrom(lines, i)[0] == i;
      j := 0;
    } else {
      var n := ResumeAt(lines, i);
      var acc' := acc + [r.value];
      assert ScanFrom(lines, i, acc) == ScanFrom(lines, n, acc');
      var j0 := ScanFromMissingAt(lines, n, acc');
      MissingAfterRecord(lines, i, n, j0, ScanFrom(lines, i, acc).error.line);
      j := j0 + 1;
    }
  }

  /** One step of `ScanFromMissingAt`: marker `i` cleans and the failure lies with marker `j0` from line `n` on. */
  lemma MissingAfterRecord(lines: seq<string>, i: nat, n: nat, j0: nat, k: nat)
    requires AllRepr(lines) && i + 1 < |lines| && Contains(lines[i], "IP") && Record(lines, i).Ok? && n == ResumeAt(lines, i)
    requires var ms := MarkersFrom(lines, n);
      && j0 < |ms|
      && Record(lines, ms[j0]) == Err(k)
      && forall j' :: 0 <= j' < j0 ==> Record(lines, ms[j']).Ok?
    ensures var ms := MarkersFrom(lines, i);
      && j0 + 1 < |ms|
      && Record(lines, ms[j0 + 1]) == Err(k)
      && forall j' :: 0 <= j' < j0 + 1 ==> Record(lines, ms[j']).Ok?
  {
    forall t | i + 1 <= t < n ensures !Contains(lines[t], "IP") {
      assert !EndsRecord(lines[t]);
    }
    MarkersSkip(lines, i + 1, n);
    assert MarkersFrom(lines, i) == [i] + MarkersFrom(lines, n);
    PrependFailure(lines, i, MarkersFrom(lines, n), j0, k);
  }

  /** Puts marker `i`, whose record cleans, in front of the markers that lead to the failing record `j0`. */
  lemma PrependFailure(lines: seq<string>, i: nat, ms: seq<nat>, j0: nat, k: nat)
    requires AllRepr(lines) && i < |lines| && Record(lines, i).Ok?
    requires forall t :: 0 <= t < |ms| ==> ms[t] < |lines|
    requires j0 < |ms| && Record(lines, ms[j0]) == Err(k)
    requires forall j' :: 0 <= j' < j0 ==> Record(lines, ms[j']).Ok?
    ensures var ms' := [i] + ms;
      && Record(lines, ms'[j0 + 1]) == Err(k)
      && forall j' :: 0 <= j' < j0 + 1 ==> Record(lines, ms'[j']).Ok?
  {
    var ms' := [i] + ms;
    assert ms'[j0 + 1] == ms[j0];
    forall j' | 0 <= j' < j0 + 1 ensures Record(lines, ms'[j']).Ok? {
      if j' > 0 {
        assert ms'[j'] == ms[j' - 1];
      }
    }
  }

  /**
   * The AttributeError of line 38 is raised on a body line that has no
   * double space once stripped: the first failing line of the first marker
   * whose record fails, every earlier marker's record having cleaned.
   */
  lemma ScanMissing(lines: seq<string>)
    requires AllRepr(lines) && Scan(lines).Err? && Scan(lines).error.MissingDoubleSpace?
    ensures var k := Scan(lines).error.line;
      0 < k < |lines| && !EndsRecord(lines[k]) && CleanLine(lines[k]).None?
    ensures var ms := Markers(lines);
      exists j :: 0 <= j < |ms| && Record(lines, ms[j]) == Err(Scan(lines).error.line)
        && forall j' :: 0 <= j' < j ==> Record(lines, ms[j']).Ok?
  {
    ScanFromMissing(lines, 0, []);
    var j := ScanFromMissingAt(lines, 0, []);
    var ms := Markers(lines);
    assert ms == MarkersFrom(lines, 0) && Scan(lines) == ScanFrom(lines, 0, []);
    assert Record(lines, ms[j]) == Err(Scan(lines).error.line);
  }

  /** A marker directly followed by a line that ends a record yields an empty payload. */
  lemma EmptyRecord(lines: seq<string>, m: nat)
    requires AllRepr(lines) && m + 1 < |lines| && EndsRecord(lines[m + 1])
    ensures Record(lines, m) == Ok("")
  {
    assert Cleaned(lines)[m + 1..m + 1] == [];
  }
}
