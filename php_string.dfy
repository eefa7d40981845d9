/**
 * Models of the PHP string built-ins the library calls: str_pad with STR_PAD_LEFT,
 * ltrim with a character list, and trim, whose right half RTrim models.
 */
module PhpString {

  function Repeat(c: char, k: nat): (r: string)
    ensures |r| == k && forall i :: 0 <= i < k ==> r[i] == c
  {
    if k == 0 then [] else [c] + Repeat(c, k - 1)
  }

  /** str_pad($s, $width, $c, STR_PAD_LEFT) with a one-character pad string. */
  function PadLeft(s: string, width: nat, c: char): (r: string)
    ensures |s| >= width ==> r == s
    ensures |s| < width ==> |r| == width && r[width - |s|..] == s
    ensures forall i :: 0 <= i < |r| - |s| ==> r[i] == c
  {
    if |s| >= width then s else Repeat(c, width - |s|) + s
  }

  /** ltrim($s, $chars): drops the longest prefix made of characters in `chars`. */
  function LTrim(s: string, chars: set<char>): (r: string)
    ensures |r| <= |s| && r == s[|s| - |r|..]
    ensures forall i :: 0 <= i < |s| - |r| ==> s[i] in chars
    ensures r != [] ==> r[0] !in chars
  {
    if s != [] && s[0] in chars then LTrim(s[1..], chars) else s
  }

  /** The right half of trim: drop the longest suffix made of characters in `chars`. */
  function RTrim(s: string, chars: set<char>): (r: string)
    ensures |r| <= |s| && r == s[..|r|]
    ensures forall i :: |r| <= i < |s| ==> s[i] in chars
    ensures r != [] ==> r[|r| - 1] !in chars
  {
    if s != [] && s[|s| - 1] in chars then RTrim(s[..|s| - 1], chars) else s
  }

  /** The characters trim() strips when it is given no list: space, tab, line feed, carriage
      return, NUL and vertical tab. */
  const TRIM_CHARS: set<char> := {' ', '\t', '\n', '\r', '\0', '\U{000B}'}

  /** trim($s): both ends stripped of TRIM_CHARS. */
  function Trim(s: string): (r: string)
    ensures |r| <= |s| && forall c :: c in r ==> c in s
    ensures exists k ::
              0 <= k <= |s| - |r| && r == s[k..][..|r|] &&
              (forall i :: 0 <= i < k ==> s[i] in TRIM_CHARS) &&
              (forall i :: k + |r| <= i < |s| ==> s[i] in TRIM_CHARS)
    ensures r != [] ==> r[0] !in TRIM_CHARS && r[|r| - 1] !in TRIM_CHARS
    ensures (forall i :: 0 <= i < |s| ==> s[i] !in TRIM_CHARS) ==> r == s
  {
    var l := LTrim(s, TRIM_CHARS);
    var r := RTrim(l, TRIM_CHARS);
    TrimmedSlice(s, l, r, TRIM_CHARS);
    r
  }

  /** Stripping a prefix and then a suffix, both made of `chars`, leaves a slice of `s`. */
  lemma TrimmedSlice(s: string, l: string, r: string, chars: set<char>)
    requires |l| <= |s| && l == s[|s| - |l|..] && forall i :: 0 <= i < |s| - |l| ==> s[i] in chars
    requires |r| <= |l| && r == l[..|r|] && forall i :: |r| <= i < |l| ==> l[i] in chars
    ensures exists k ::
              0 <= k <= |s| - |r| && r == s[k..][..|r|] &&
              (forall i :: 0 <= i < k ==> s[i] in chars) &&
              (forall i :: k + |r| <= i < |s| ==> s[i] in chars)
  {
    var k := |s| - |l|;
    assert s[k..] == l;
    forall i | k + |r| <= i < |s|
      ensures s[i] in chars
    {
      assert s[i] == l[i - k];
    }
  }
}
