/**
 * Cleaning of one body line of the dump (sniff2img, lines 37-39): three
 * regular-expression substitutions, each written out as a string function.
 * On repr text (no line breaks, ASCII only) `.` matches every character and
 * `\w` is `[A-Za-z0-9_]`, so these functions are exact there.
 */
module LineClean {
  import opened Common
  import opened Strings

  /**
   * The prefix `s[..m]` matches `^.*0x.*:  `: it ends with colon and two
   * spaces, and "0x" occurs wholly before them.
   */
  predicate OffsetLabelMatch(s: string, m: nat)
  {
    3 <= m <= |s| && OccursAt(s, ":  ", m - 3) && Contains(s[..m - 3], "0x")
  }

  /**
   * Length of the prefix that `^.*0x.*:  ` matches, 0 when it does not
   * match: the anchored pattern is greedy, so this is the longest matching
   * prefix.
   */
  function LabelEnd(s: string): (m: nat)
    ensures m <= |s|
    ensures m == 0 || OffsetLabelMatch(s, m)
    ensures forall n: nat :: OffsetLabelMatch(s, n) ==> n <= m
  {
    match LastIndexOf(s, ":  ")
    case None => 0
    case Some(q) =>
      if Contains(s[..q], "0x") then q + 3
      else
        assert forall n: nat :: !OffsetLabelMatch(s, n) by {
          forall n: nat | OffsetLabelMatch(s, n) ensures false {
            ContainsIff(s[..n - 3], "0x");
            var k := IndexOf(s[..n - 3], "0x").value;
            OccursInPrefix(s, n - 3, "0x", k);
            OccursToPrefix(s, q, "0x", k);
            ContainsWitness(s[..q], "0x", k);
          }
        }
        0
  }

  /** `re.sub("^.*0x.*:  ", '', s)`: the matched offset label is deleted. */
  function StripOffset(s: string): (r: string)
    ensures |r| <= |s| && r == s[|s| - |r|..]
    ensures LabelEnd(s) == 0 ==> r == s
  {
    s[LabelEnd(s)..]
  }

  /**
   * `s[0:re.search('  .*$', s).start()]`: the text before the first double
   * space; None where the search finds nothing and `.start()` raises.
   */
  function CutAtDoubleSpace(s: string): (r: Option<string>)
    ensures r.None? ==> forall k: nat :: !OccursAt(s, "  ", k)
    ensures r.Some? ==> OccursAt(s, "  ", |r.value|) && r.value == s[..|r.value|]
    ensures r.Some? ==> forall k: nat :: k < |r.value| ==> !OccursAt(s, "  ", k)
  {
    match IndexOf(s, "  ")
    case None => None
    case Some(k) => Some(s[..k])
  }

  /** `re.sub(r'[^\w]', '', s)`: every non-word character deleted. */
  function DropNonWord(s: string): (r: string)
    ensures |r| <= |s| && IsWord(r)
    ensures forall ch :: IsWordChar(ch) ==> multiset(r)[ch] == multiset(s)[ch]
    ensures IsWord(s) ==> r == s
  {
    if |s| == 0 then ""
    else
      assert s == [s[0]] + s[1..];
      (if IsWordChar(s[0]) then [s[0]] else []) + DropNonWord(s[1..])
  }

  /** Deleting characters one by one keeps the survivors in their order. */
  lemma {:induction false} DropNonWordConcat(a: string, b: string)
    ensures DropNonWord(a + b) == DropNonWord(a) + DropNonWord(b)
  {
    if |a| == 0 {
      assert a + b == b;
    } else {
      assert (a + b)[1..] == a[1..] + b;
      DropNonWordConcat(a[1..], b);
    }
  }

  /** The whole cleaning chain of one body line; None where line 38 raises. */
  function CleanLine(line: string): (r: Option<string>)
    requires IsReprText(line)
    ensures r.Some? ==> IsWord(r.value) && |r.value| <= |line|
  {
    match CutAtDoubleSpace(StripOffset(line))
    case None => None
    case Some(t) => Some(DropNonWord(t))
  }

  /** Cleaning raises exactly when no double space is left once the offset label is gone. */
  lemma CleanLineFails(line: string)
    requires IsReprText(line)
    ensures CleanLine(line).None? <==> forall k: nat :: !OccursAt(StripOffset(line), "  ", k)
  {
  }

  /**
   * The hex column of a body line: groups of digits split by single
   * spaces, with no colon and no trailing space.
   */
  ghost predicate IsHexColumn(h: string)
  {
    && (forall i :: 0 <= i < |h| ==> h[i] != ':')
    && (forall k: nat :: !OccursAt(h, "  ", k))
    && (|h| == 0 || h[|h| - 1] != ' ')
  }

  /** In such a row the label match ends at the colon and two spaces after the offset. */
  lemma LabelOfRow(line: string, lbl: string, hex: string, ascii: string)
    requires line == lbl + ":  " + hex + "  " + ascii
    requires Contains(lbl, "0x") && IsHexColumn(hex)
    requires forall k: nat :: !OccursAt(ascii, ":  ", k)
    ensures LabelEnd(line) == |lbl| + 3
  {
    var m0 := |lbl| + 3;
    assert line[..|lbl|] == lbl;
    assert line[|lbl|..m0] == ":  ";
    assert OffsetLabelMatch(line, m0);
    var tail := m0 + |hex| + 2;
    forall n: nat | m0 < n ensures !OffsetLabelMatch(line, n) {
      var j := n - 3;
      if n <= |line| {
        if j < tail {
          if j < m0 {
            assert line[j] == ' ';
          } else if j < m0 + |hex| {
            assert line[j] == hex[j - m0];
          } else {
            assert line[j] == ' ';
          }
          assert line[j..n][0] == line[j];
        } else {
          assert line[tail..] == ascii;
          assert !OccursAt(ascii, ":  ", j - tail);
          assert line[j..n] == ascii[j - tail..j - tail + 3];
        }
      }
    }
  }

  /** The first double space after the label is the gap before the ASCII column. */
  lemma CutOfRow(rest: string, hex: string, ascii: string)
    requires rest == hex + "  " + ascii && IsHexColumn(hex)
    ensures CutAtDoubleSpace(rest) == Some(hex)
  {
    assert rest[|hex|..|hex| + 2] == "  ";
    assert OccursAt(rest, "  ", |hex|);
    forall k: nat | k < |hex| ensures !OccursAt(rest, "  ", k) {
      if k + 1 < |hex| {
        assert rest[k..k + 2] == hex[k..k + 2];
        assert !OccursAt(hex, "  ", k);
      } else {
        assert rest[k..k + 2][0] == hex[k];
      }
    }
    assert rest[..|hex|] == hex;
  }

  /** A body line as a packet sniffer prints it keeps exactly the word characters of its hex column. */
  lemma CleanRow(line: string, lbl: string, hex: string, ascii: string)
    requires IsReprText(line)
    requires line == lbl + ":  " + hex + "  " + ascii
    requires Contains(lbl, "0x") && IsHexColumn(hex)
    requires forall k: nat :: !OccursAt(ascii, ":  ", k)
    ensures CleanLine(line) == Some(DropNonWord(hex))
  {
    LabelOfRow(line, lbl, hex, ascii);
    assert StripOffset(line) == hex + "  " + ascii;
    CutOfRow(StripOffset(line), hex, ascii);
  }

  /**
   * The offset label is matched greedily, so a `:  ` inside the ASCII column
   * of a row takes the hex column away with the label: what is left is a tail
   * of the ASCII column.
   */
  lemma AsciiColonHidesHex(line: string, lbl: string, hex: string, ascii: string, k: nat)
    requires line == lbl + ":  " + hex + "  " + ascii
    requires Contains(lbl, "0x") && OccursAt(ascii, ":  ", k)
    ensures |lbl| + |hex| + 5 + k + 3 <= LabelEnd(line)
    ensures StripOffset(line) == ascii[LabelEnd(line) - (|lbl| + |hex| + 5)..]
  {
    var tail := |lbl| + |hex| + 5;
    var j := tail + k;
    assert line[tail..] == ascii;
    assert line[j..j + 3] == ascii[k..k + 3];
    ContainsIff(lbl, "0x");
    var i := IndexOf(lbl, "0x").value;
    assert line[..|lbl|] == lbl;
    assert i + 2 <= |lbl| <= j;
    assert line[..j][i..i + 2] == line[i..i + 2] == lbl[i..i + 2];
    ContainsWitness(line[..j], "0x", i);
    assert OffsetLabelMatch(line, j + 3);
  }
}
