/**
 * Text primitives the dump parser relies on: literal substring search (what
 * `re.search` does for a pattern without metacharacters), Python's
 * `str.split` on a non-empty separator, and the character classes involved.
 */
module Strings {
  import opened Common

  /** The text the parser works on is `str(bytes)`: only printable ASCII. */
  predicate IsReprText(s: string)
  {
    forall i :: 0 <= i < |s| ==> ' ' <= s[i] <= '~'
  }

  /** `\w` restricted to ASCII, which is all a repr text can hold. */
  predicate IsWordChar(ch: char)
  {
    ('a' <= ch <= 'z') || ('A' <= ch <= 'Z') || ('0' <= ch <= '9') || ch == '_'
  }

  predicate IsWord(s: string)
  {
    forall i :: 0 <= i < |s| ==> IsWordChar(s[i])
  }

  /** `t` occurs in `s` starting at index `k`. */
  predicate OccursAt(s: string, t: string, k: nat)
  {
    k + |t| <= |s| && s[k..k + |t|] == t
  }

  /** Leftmost occurrence of `t` in `s` at or after `from`. */
  function IndexFrom(s: string, t: string, from: nat): (r: Option<nat>)
    ensures r.Some? ==> from <= r.value && OccursAt(s, t, r.value)
    ensures r.Some? ==> forall k: nat :: from <= k < r.value ==> !OccursAt(s, t, k)
    ensures r.None? ==> forall k: nat :: from <= k ==> !OccursAt(s, t, k)
    decreases |s| - from
  {
    if from + |t| > |s| then None
    else if s[from..from + |t|] == t then Some(from)
    else IndexFrom(s, t, from + 1)
  }

  /** Leftmost occurrence of `t` in `s`, as found by `re.search(t, s)`. */
  function IndexOf(s: string, t: string): (r: Option<nat>)
    ensures r.Some? ==> OccursAt(s, t, r.value)
    ensures r.Some? ==> forall k: nat :: k < r.value ==> !OccursAt(s, t, k)
    ensures r.None? ==> forall k: nat :: !OccursAt(s, t, k)
  {
    IndexFrom(s, t, 0)
  }

  /** Rightmost occurrence of `t` in `s` that starts below `n`. */
  function LastBelow(s: string, t: string, n: nat): (r: Option<nat>)
    ensures r.Some? ==> r.value < n && OccursAt(s, t, r.value)
    ensures r.Some? ==> forall k: nat :: r.value < k < n ==> !OccursAt(s, t, k)
    ensures r.None? ==> forall k: nat :: k < n ==> !OccursAt(s, t, k)
    decreases n
  {
    if n == 0 then None
    else if OccursAt(s, t, n - 1) then Some(n - 1)
    else LastBelow(s, t, n - 1)
  }

  /** Rightmost occurrence of `t` in `s`. */
  function LastIndexOf(s: string, t: string): (r: Option<nat>)
    ensures r.Some? ==> OccursAt(s, t, r.value)
    ensures r.Some? ==> forall k: nat :: r.value < k ==> !OccursAt(s, t, k)
    ensures r.None? ==> forall k: nat :: !OccursAt(s, t, k)
  {
    LastBelow(s, t, |s| + 1)
  }

  /** `t` occurs in `s` at or after `from`. */
  predicate ContainsFrom(s: string, t: string, from: nat)
    decreases |s| - from
  {
    from + |t| <= |s| && (OccursAt(s, t, from) || ContainsFrom(s, t, from + 1))
  }

  /** `re.search(t, s)` succeeds for the literal pattern `t`: `t` occurs somewhere in `s`. */
  predicate Contains(s: string, t: string): (b: bool)
    ensures b <==> exists k: nat :: OccursAt(s, t, k)
  {
    ContainsFromIff(s, t, 0);
    ContainsFrom(s, t, 0)
  }

  lemma {:induction false} ContainsFromIff(s: string, t: string, from: nat)
    ensures ContainsFrom(s, t, from) <==> IndexFrom(s, t, from).Some?
    decreases |s| - from
  {
    if from + |t| <= |s| {
      ContainsFromIff(s, t, from + 1);
    }
  }

  /** Contains agrees with the search: there is an occurrence exactly when the leftmost one exists. */
  lemma ContainsIff(s: string, t: string)
    ensures Contains(s, t) <==> IndexOf(s, t).Some?
  {
    ContainsFromIff(s, t, 0);
  }

  lemma ContainsWitness(s: string, t: string, k: nat)
    requires OccursAt(s, t, k)
    ensures Contains(s, t)
  {
    ContainsIff(s, t);
  }

  /** An occurrence inside a prefix is an occurrence in the whole text. */
  lemma OccursInPrefix(s: string, n: nat, t: string, k: nat)
    requires n <= |s| && OccursAt(s[..n], t, k)
    ensures OccursAt(s, t, k) && k + |t| <= n
  {
    assert s[..n][k..k + |t|] == s[k..k + |t|];
  }

  /** An occurrence that ends by `n` is an occurrence in the prefix of length `n`. */
  lemma OccursToPrefix(s: string, n: nat, t: string, k: nat)
    requires n <= |s| && OccursAt(s, t, k) && k + |t| <= n
    ensures OccursAt(s[..n], t, k)
  {
    assert s[..n][k..k + |t|] == s[k..k + |t|];
  }

  /** Python's `s.split(sep)` for a non-empty separator. */
  function Split(s: string, sep: string): (r: seq<string>)
    requires |sep| > 0
    ensures |r| >= 1
    ensures forall k :: 0 <= k < |r| ==> !Contains(r[k], sep)
    ensures IsReprText(s) ==> forall k :: 0 <= k < |r| ==> IsReprText(r[k])
    decreases |s|
  {
    ContainsIff(s, sep);
    match IndexOf(s, sep)
    case None => [s]
    case Some(j) =>
      var head := s[..j];
      assert !Contains(head, sep) by {
        ContainsIff(head, sep);
        forall k: nat | OccursAt(head, sep, k) ensures false {
          OccursInPrefix(s, j, sep, k);
        }
      }
      [head] + Split(s[j + |sep|..], sep)
  }

  /** Python's `sep.join(pieces)`. */
  function Join(pieces: seq<string>, sep: string): string
  {
    if |pieces| == 0 then ""
    else if |pieces| == 1 then pieces[0]
    else pieces[0] + sep + Join(pieces[1..], sep)
  }

  /** Splitting loses nothing: joining the pieces back gives the text. */
  lemma {:induction false} JoinSplit(s: string, sep: string)
    requires |sep| > 0
    ensures Join(Split(s, sep), sep) == s
    decreases |s|
  {
    match IndexOf(s, sep)
    case None =>
    case Some(j) =>
      var rest := s[j + |sep|..];
      var pieces := Split(rest, sep);
      JoinSplit(rest, sep);
      assert Split(s, sep) == [s[..j]] + pieces;
      assert ([s[..j]] + pieces)[1..] == pieces;
      calc {
        Join(Split(s, sep), sep);
        s[..j] + sep + Join(pieces, sep);
        s[..j] + sep + rest;
        { assert s[j..j + |sep|] == sep; }
        s;
      }
  }
}
