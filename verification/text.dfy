/**
 The JavaScript string operations that the task handlers and forms rely on:
 `String.prototype.trim`, `indexOf` of one character and `replace` with a
 one-character string pattern (which replaces the first occurrence only).
 */
module Text {

  /** The characters `trim` strips: the WhiteSpace and LineTerminator code
      points of ECMA-262 (tab, LF, vertical tab, form feed, CR, space, no-break
      space, the Unicode space separators U+1680, U+2000 to U+200A, U+202F,
      U+205F and U+3000, LS, PS and the byte order mark). */
  predicate IsWs(c: char) {
    || ('\t' <= c <= '\r') || c == ' ' || c == '\U{00A0}' || c == '\U{1680}'
    || ('\U{2000}' <= c <= '\U{200A}') || c == '\U{2028}' || c == '\U{2029}'
    || c == '\U{202F}' || c == '\U{205F}' || c == '\U{3000}' || c == '\U{FEFF}'
  }

  /** Every character of `s` is whitespace; true of "". */
  predicate AllWs(s: string) {
    forall i :: 0 <= i < |s| ==> IsWs(s[i])
  }

  /** Neither the first nor the last character of `s` is whitespace. */
  predicate Tight(s: string) {
    s == [] || (!IsWs(s[0]) && !IsWs(s[|s| - 1]))
  }

  /** Where the content of `s` starts: the length of its leading run of
      whitespace. */
  function ContentStart(s: string): (i: nat)
    ensures i <= |s|
    ensures forall k :: 0 <= k < i ==> IsWs(s[k])
    ensures i < |s| ==> !IsWs(s[i])
  {
    if |s| > 0 && IsWs(s[0]) then
      var i := ContentStart(s[1..]);
      assert forall k :: 1 <= k < i + 1 ==> s[k] == s[1..][k - 1];
      i + 1
    else 0
  }

  /** Where the content of `s` ends: the start of its trailing run of
      whitespace. */
  function ContentEnd(s: string): (j: nat)
    ensures j <= |s|
    ensures forall k :: j <= k < |s| ==> IsWs(s[k])
    ensures 0 < j ==> !IsWs(s[j - 1])
  {
    if |s| > 0 && IsWs(s[|s| - 1]) then
      var j := ContentEnd(s[..|s| - 1]);
      assert forall k :: j <= k < |s| - 1 ==> s[k] == s[..|s| - 1][k];
      j
    else |s|
  }

  /** The start of the content is fixed by the two facts `ContentStart`
      promises. */
  lemma ContentStartUnique(s: string, n: nat)
    requires n <= |s| && (forall k :: 0 <= k < n ==> IsWs(s[k]))
    requires n < |s| ==> !IsWs(s[n])
    ensures ContentStart(s) == n
  {
  }

  /** The end of the content is fixed by the two facts `ContentEnd`
      promises. */
  lemma ContentEndUnique(s: string, n: nat)
    requires n <= |s| && (forall k :: n <= k < |s| ==> IsWs(s[k]))
    requires 0 < n ==> !IsWs(s[n - 1])
    ensures ContentEnd(s) == n
  {
  }

  /** JavaScript `s.trim()`: the result is a slice `s[i..i + |r|]` of `s` with
      only whitespace before and after it; it neither starts nor ends with
      whitespace, and it is empty exactly when `s` is all whitespace. */
  function Trim(s: string): (r: string)
    ensures Tight(r)
    ensures r == [] <==> AllWs(s)
    ensures exists i :: 0 <= i <= |s| - |r| && r == s[i..i + |r|]
                        && AllWs(s[..i]) && AllWs(s[i + |r|..])
  {
    var i := ContentStart(s);
    var j := ContentEnd(s);
    if j <= i then
      TrimCutEmpty(s, i, j);
      []
    else
      TrimCutContent(s, i, j);
      s[i..j]
  }

  /** When the content's end is not after its start, `s` is all whitespace
      and `Trim` cuts it at its start. */
  lemma TrimCutEmpty(s: string, i: nat, j: nat)
    requires i == ContentStart(s) && j == ContentEnd(s) && j <= i
    ensures AllWs(s) && AllWs(s[..i]) && AllWs(s[i..])
  {
    forall k | 0 <= k < |s| ensures IsWs(s[k]) {
      if j <= k {
      }
    }
    assert forall k :: 0 <= k < i ==> s[..i][k] == s[k];
  }

  /** When the content's end is after its start, `s[i..j]` is tight and only
      whitespace lies outside it. */
  lemma TrimCutContent(s: string, i: nat, j: nat)
    requires i == ContentStart(s) && j == ContentEnd(s) && i < j
    ensures !AllWs(s) && Tight(s[i..j]) && AllWs(s[..i]) && AllWs(s[j..])
  {
    assert !IsWs(s[i]);
    assert s[i..j][0] == s[i] && s[i..j][j - i - 1] == s[j - 1];
    assert forall k :: 0 <= k < i ==> s[..i][k] == s[k];
    assert forall k :: 0 <= k < |s| - j ==> s[j..][k] == s[j + k];
  }

  /** `Trim` undoes padding: whatever whitespace surrounds a tight string is
      exactly what `Trim` removes. */
  lemma TrimOfPadded(a: string, m: string, b: string)
    requires AllWs(a) && AllWs(b) && Tight(m)
    ensures Trim(a + m + b) == m
  {
    var s := a + m + b;
    if m == [] {
      assert forall k :: 0 <= k < |s| ==> IsWs(s[k]) by {
        forall k | 0 <= k < |s| ensures IsWs(s[k]) {
          if k < |a| {
            assert s[k] == a[k];
          } else {
            assert s[k] == b[k - |a|];
          }
        }
      }
    } else {
      assert forall k :: 0 <= k < |a| ==> s[k] == a[k];
      assert s[|a|] == m[0];
      ContentStartUnique(s, |a|);
      assert forall k :: |a| + |m| <= k < |s| ==> s[k] == b[k - |a| - |m|];
      assert s[|a| + |m| - 1] == m[|m| - 1];
      ContentEndUnique(s, |a| + |m|);
      assert s[|a|..|a| + |m|] == m;
    }
  }

  /** Trimming twice is trimming once. */
  lemma TrimIdempotent(s: string)
    ensures Trim(Trim(s)) == Trim(s)
  {
    var m := Trim(s);
    TrimOfPadded([], m, []);
    assert [] + m + [] == m;
  }

  /** JavaScript `s.indexOf(c)` for a one-character search string: the first
      position holding `c`, or -1 when there is none. */
  function IndexOf(s: string, c: char): (k: int)
    ensures -1 <= k < |s|
    ensures k == -1 <==> c !in s
    ensures 0 <= k ==> s[k] == c && c !in s[..k]
  {
    if |s| == 0 then -1
    else if s[0] == c then 0
    else
      var k := IndexOf(s[1..], c);
      if k == -1 then -1
      else
        assert s[..k + 1] == [s[0]] + s[1..][..k];
        k + 1
  }

  /** JavaScript `s.replace(from, to)` with one-character strings. What it
      replaces is stated by `ReplaceFirstAt`. */
  function ReplaceFirst(s: string, from: char, to: char): (r: string)
    ensures |r| == |s|
  {
    if |s| == 0 then []
    else if s[0] == from then [to] + s[1..]
    else [s[0]] + ReplaceFirst(s[1..], from, to)
  }

  /** `replace` changes only the first occurrence of `from` into `to`, and
      leaves the string as it is when `from` does not occur. */
  lemma {:induction false} ReplaceFirstAt(s: string, from: char, to: char)
    ensures forall i :: 0 <= i < |s| ==>
      ReplaceFirst(s, from, to)[i] == (if i == IndexOf(s, from) then to else s[i])
    ensures from !in s ==> ReplaceFirst(s, from, to) == s
  {
    if |s| > 0 && s[0] != from {
      ReplaceFirstAt(s[1..], from, to);
      var r := ReplaceFirst(s, from, to);
      assert forall i :: 1 <= i < |s| ==> r[i] == ReplaceFirst(s[1..], from, to)[i - 1];
      assert forall i :: 1 <= i < |s| ==> s[i] == s[1..][i - 1];
    }
  }

  /** `replace` finds the first occurrence: in `p + [from] + q` with no
      `from` in `p`, exactly that occurrence becomes `to`, whatever `q`
      holds. */
  lemma {:induction false} ReplaceFirstSplit(p: string, from: char, to: char, q: string)
    requires from !in p
    ensures ReplaceFirst(p + [from] + q, from, to) == p + [to] + q
  {
    var s := p + [from] + q;
    if p == [] {
      assert s == [from] + q;
      assert s[1..] == q;
    } else {
      assert s[0] == p[0];
      assert s[1..] == p[1..] + [from] + q;
      ReplaceFirstSplit(p[1..], from, to, q);
      assert p + [to] + q == [p[0]] + (p[1..] + [to] + q);
    }
  }
}
